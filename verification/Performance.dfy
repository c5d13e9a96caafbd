/** Profit-and-loss accounting of hummingbot/client/performance.py on values:
    grouping of fills, pairing of positions, and the identities they obey. */
module Performance {
  import opened Basics

  datatype Side = BUY | SELL | OTHER_SIDE

  datatype Position = OPEN | CLOSE | NIL | OTHER

  /** `stored` tells a TradeFill record from the Trade objects of other callers. */
  datatype Fill = Fill(id: string, side: Side, position: Position, stored: bool, price: real, amount: real)

  // ---- aggregate_orders ----------------------------------------------------

  /** The fills of one order, in list order. */
  function WithId(fills: seq<Fill>, id: string): (group: seq<Fill>)
    ensures forall f :: f in group ==> f in fills && f.id == id
  {
    if fills == [] then []
    else WithId(fills[..|fills| - 1], id) + (if fills[|fills| - 1].id == id then [fills[|fills| - 1]] else [])
  }

  /** The order ids in the order of their first fill. */
  function FirstIds(fills: seq<Fill>): seq<string>
  {
    if fills == [] then []
    else
      var ids, id := FirstIds(fills[..|fills| - 1]), fills[|fills| - 1].id;
      if id in ids then ids else ids + [id]
  }

  function SumPrice(fills: seq<Fill>): real
  {
    if fills == [] then 0.0 else SumPrice(fills[..|fills| - 1]) + fills[|fills| - 1].price
  }

  function SumAmount(fills: seq<Fill>): real
  {
    if fills == [] then 0.0 else SumAmount(fills[..|fills| - 1]) + fills[|fills| - 1].amount
  }

  /** One order out of its fills: the first fill with the mean price and the
      total amount. */
  function Merged(group: seq<Fill>): Fill
    requires group != []
  {
    group[0].(price := SumPrice(group) / |group| as real, amount := SumAmount(group))
  }

  lemma {:induction false} IdsAppear(fills: seq<Fill>)
    ensures forall id :: id in FirstIds(fills) <==> WithId(fills, id) != []
    ensures forall f :: f in fills ==> f.id in FirstIds(fills)
    ensures forall i, j :: 0 <= i < j < |FirstIds(fills)| ==> FirstIds(fills)[i] != FirstIds(fills)[j]
  {
    if fills != [] {
      var front, last := fills[..|fills| - 1], fills[|fills| - 1];
      IdsAppear(front);
      assert fills == front + [last];
    }
  }

  function Aggregate(fills: seq<Fill>): (orders: seq<Fill>)
    ensures |orders| == |FirstIds(fills)|
    ensures forall i :: 0 <= i < |orders| ==>
      WithId(fills, FirstIds(fills)[i]) != [] && orders[i] == Merged(WithId(fills, FirstIds(fills)[i]))
  {
    IdsAppear(fills);
    seq(|FirstIds(fills)|, i requires 0 <= i < |FirstIds(fills)| => Merged(WithId(fills, FirstIds(fills)[i])))
  }

  /** Where an order's first fill stands; the length if it has none. */
  function FirstIndex(fills: seq<Fill>, id: string): (k: nat)
    ensures k <= |fills|
    ensures k < |fills| ==> fills[k].id == id
    ensures forall j :: 0 <= j < k ==> fills[j].id != id
  {
    if fills == [] then 0
    else
      var last := |fills| - 1;
      var k := FirstIndex(fills[..last], id);
      if k < last || fills[last].id == id then k else |fills|
  }

  ghost predicate InOrder(fills: seq<Fill>, ids: seq<string>)
  {
    && (forall i :: 0 <= i < |ids| ==> FirstIndex(fills, ids[i]) < |fills|)
    && (forall i, j :: 0 <= i < j < |ids| ==> FirstIndex(fills, ids[i]) < FirstIndex(fills, ids[j]))
  }

  /** One order per distinct id, in first-appearance order. */
  lemma OneOrderPerId(fills: seq<Fill>)
    ensures var ids := seq(|Aggregate(fills)|, i requires 0 <= i < |Aggregate(fills)| => Aggregate(fills)[i].id);
      InOrder(fills, ids) && forall f :: f in fills ==> f.id in ids
  {
    hide FirstIds, InOrder;
    IdsAppear(fills);
    IdsInOrder(fills);
    assert FirstIds(fills) == seq(|Aggregate(fills)|, i requires 0 <= i < |Aggregate(fills)| => Aggregate(fills)[i].id);
  }

  /** An aggregated order is the first fill of its id in everything but price and
      amount. */
  lemma {:induction false} GroupStartsWithFirst(fills: seq<Fill>, id: string)
    ensures FirstIndex(fills, id) < |fills| <==> WithId(fills, id) != []
    ensures WithId(fills, id) != [] ==> WithId(fills, id)[0] == fills[FirstIndex(fills, id)]
  {
    if fills != [] { GroupStartsWithFirst(fills[..|fills| - 1], id); }
  }

  lemma AggregateKeepsFirst(fills: seq<Fill>, i: nat)
    requires i < |Aggregate(fills)|
    ensures var order := Aggregate(fills)[i];
      var k := FirstIndex(fills, order.id);
      k < |fills| && order == fills[k].(price := order.price, amount := order.amount)
  {
    hide FirstIndex, WithId, FirstIds, SumPrice, SumAmount;
    var id := FirstIds(fills)[i];
    GroupStartsWithFirst(fills, id);
    assert WithId(fills, id)[0] in WithId(fills, id);
  }

  lemma {:induction false} IdsInOrder(fills: seq<Fill>)
    ensures InOrder(fills, FirstIds(fills))
  {
    if fills != [] {
      var front, last := fills[..|fills| - 1], fills[|fills| - 1];
      var ids := FirstIds(front);
      IdsInOrder(front);
      IdsAppear(front);
      assert forall j :: 0 <= j < |front| ==> front[j] in front;
      OneMoreId(fills, ids);
    }
  }

  lemma OneMoreId(fills: seq<Fill>, ids: seq<string>)
    requires fills != [] && InOrder(fills[..|fills| - 1], ids)
    requires forall j :: 0 <= j < |fills| - 1 ==> fills[j].id in ids
    ensures InOrder(fills, if fills[|fills| - 1].id in ids then ids else ids + [fills[|fills| - 1].id])
  {
    hide FirstIndex;
    var front, last := fills[..|fills| - 1], fills[|fills| - 1];
    forall i | 0 <= i < |ids| ensures FirstIndex(fills, ids[i]) == FirstIndex(front, ids[i]) < |front| {
      FirstIndexSnoc(fills, ids[i]);
    }
    if last.id !in ids {
      assert forall j :: 0 <= j < |front| ==> front[j] == fills[j] && front[j].id in ids;
      FirstIndexSnoc(fills, last.id);
    }
  }

  lemma FirstIndexSnoc(fills: seq<Fill>, id: string)
    requires fills != []
    ensures var last := |fills| - 1;
      var k := FirstIndex(fills[..last], id);
      FirstIndex(fills, id) == if k < last then k else if fills[last].id == id then last else |fills|
  {
  }

  /** Per order: the amount is the sum, and the price lies between two of the
      fill prices. */
  lemma {:induction false} MeanIsBetween(group: seq<Fill>)
    requires group != []
    ensures exists i, j | 0 <= i < |group| && 0 <= j < |group| ::
      group[i].price <= Merged(group).price <= group[j].price
  {
    var lo, hi := Extremes(group);
    var n := |group| as real;
    SumBounds(group, group[lo].price, group[hi].price);
    QuotientBounds(SumPrice(group), n, group[lo].price, group[hi].price);
  }

  lemma {:induction false} Extremes(group: seq<Fill>) returns (lo: nat, hi: nat)
    requires group != []
    ensures lo < |group| && hi < |group|
    ensures forall f :: f in group ==> group[lo].price <= f.price <= group[hi].price
  {
    if |group| == 1 { return 0, 0; }
    var last := |group| - 1;
    lo, hi := Extremes(group[..last]);
    assert forall f :: f in group ==> f in group[..last] || f == group[last];
    if group[last].price < group[lo].price { lo := last; }
    if group[last].price > group[hi].price { hi := last; }
  }

  predicate TimesWithin(n: real, sum: real, lo: real, hi: real) { lo * n <= sum <= hi * n }

  lemma OneMoreWithin(n: real, sum: real, x: real, lo: real, hi: real)
    requires TimesWithin(n, sum, lo, hi) && lo <= x <= hi
    ensures TimesWithin(n + 1.0, sum + x, lo, hi)
  {
    assert lo * (n + 1.0) == lo * n + lo && hi * (n + 1.0) == hi * n + hi;
  }

  lemma {:induction false} SumBounds(group: seq<Fill>, lo: real, hi: real)
    requires forall f :: f in group ==> lo <= f.price <= hi
    ensures TimesWithin(|group| as real, SumPrice(group), lo, hi)
  {
    if group == [] {
      assert lo * 0.0 == 0.0 && hi * 0.0 == 0.0;
    } else {
      hide TimesWithin;
      var front, last := group[..|group| - 1], group[|group| - 1];
      SumBounds(front, lo, hi);
      assert last in group;
      OneMoreWithin(|front| as real, SumPrice(front), last.price, lo, hi);
    }
  }

  lemma QuotientBounds(s: real, n: real, lo: real, hi: real)
    requires n > 0.0 && lo * n <= s <= hi * n
    ensures lo <= s / n <= hi
  {
    var q := s / n;
    assert q * n == s;
    assert q >= lo || (lo - q) * n > 0.0;
    assert q <= hi || (q - hi) * n > 0.0;
  }

  /** Aggregation conserves the amount of every order and so the total. */
  lemma {:induction false} AggregateConserves(fills: seq<Fill>)
    ensures SumAmount(Aggregate(fills)) == SumAmount(fills)
  {
    IdsAppear(fills);
    GroupedTotal(fills, FirstIds(fills));
    AggregateIsById(fills, |FirstIds(fills)|);
    assert Aggregate(fills)[..|FirstIds(fills)|] == Aggregate(fills);
    assert FirstIds(fills)[..|FirstIds(fills)|] == FirstIds(fills);
  }

  function AmountOf(fills: seq<Fill>, ids: seq<string>): real
  {
    if ids == [] then 0.0
    else AmountOf(fills, ids[..|ids| - 1]) + SumAmount(WithId(fills, ids[|ids| - 1]))
  }

  lemma {:induction false} AggregateIsById(fills: seq<Fill>, k: nat)
    requires k <= |FirstIds(fills)|
    ensures SumAmount(Aggregate(fills)[..k]) == AmountOf(fills, FirstIds(fills)[..k])
  {
    if k > 0 {
      AggregateIsById(fills, k - 1);
      assert Aggregate(fills)[..k][..k - 1] == Aggregate(fills)[..k - 1];
      assert FirstIds(fills)[..k][..k - 1] == FirstIds(fills)[..k - 1];
    }
  }

  lemma GroupAmount(front: seq<Fill>, last: Fill, id: string)
    ensures SumAmount(WithId(front + [last], id)) ==
      SumAmount(WithId(front, id)) + (if last.id == id then last.amount else 0.0)
  {
    var group := WithId(front, id);
    assert (front + [last])[..|front|] == front;
    assert WithId(front + [last], id) == if last.id == id then group + [last] else group;
    assert (group + [last])[..|group|] == group;
  }

  /** One more fill adds its amount to its own order only. */
  lemma {:induction false} AmountsById(front: seq<Fill>, last: Fill, ids: seq<string>)
    requires forall i, j :: 0 <= i < j < |ids| ==> ids[i] != ids[j]
    ensures AmountOf(front + [last], ids) == AmountOf(front, ids) + (if last.id in ids then last.amount else 0.0)
  {
    hide WithId, SumAmount;
    if ids != [] {
      var ids', id := ids[..|ids| - 1], ids[|ids| - 1];
      AmountsById(front, last, ids');
      GroupAmount(front, last, id);
      assert ids == ids' + [id];
    }
  }

  lemma {:induction false} GroupedTotal(fills: seq<Fill>, ids: seq<string>)
    requires forall f :: f in fills ==> f.id in ids
    requires forall i, j :: 0 <= i < j < |ids| ==> ids[i] != ids[j]
    ensures AmountOf(fills, ids) == SumAmount(fills)
  {
    if fills == [] {
      NoFills(ids);
    } else {
      hide WithId, AmountOf;
      var front, last := fills[..|fills| - 1], fills[|fills| - 1];
      assert fills == front + [last];
      GroupedTotal(front, ids);
      AmountsById(front, last, ids);
    }
  }

  lemma {:induction false} NoFills(ids: seq<string>)
    ensures AmountOf([], ids) == 0.0
  {
    if ids != [] { NoFills(ids[..|ids| - 1]); }
  }

  // ---- position_order and the pairing loop --------------------------------

  /** The orders in one position, in list order. */
  function InPosition(orders: seq<Fill>, p: Position): seq<Fill>
  {
    if orders == [] then []
    else (if orders[0].position == p then [orders[0]] else []) + InPosition(orders[1..], p)
  }

  lemma InPositionCons(x: Fill, rest: seq<Fill>, p: Position)
    ensures InPosition([x] + rest, p) == if x.position == p then [x] + InPosition(rest, p) else InPosition(rest, p)
  {
    assert ([x] + rest)[1..] == rest;
  }

  function Min(a: nat, b: nat): nat { if a < b then a else b }

  /** The first with the first, the second with the second, as far as both go. */
  function Zip<T>(opens: seq<T>, closes: seq<T>): (pairs: seq<(T, T)>)
    ensures |pairs| <= |opens| && |pairs| <= |closes| && (|pairs| == |opens| || |pairs| == |closes|)
    ensures forall i :: 0 <= i < |pairs| ==> pairs[i] == (opens[i], closes[i])
  {
    seq(Min(|opens|, |closes|), i requires 0 <= i < Min(|opens|, |closes|) => (opens[i], closes[i]))
  }

  // ---- derivative_pnl ------------------------------------------------------

  function LongPnl(pair: (Fill, Fill)): real { (pair.1.price - pair.0.price) * pair.1.amount }

  function ShortPnl(pair: (Fill, Fill)): real { (pair.0.price - pair.1.price) * pair.1.amount }

  function Sum(values: seq<real>): real
  {
    if values == [] then 0.0 else Sum(values[..|values| - 1]) + values[|values| - 1]
  }

  function SumLong(pairs: seq<(Fill, Fill)>): real
  {
    if pairs == [] then 0.0 else SumLong(pairs[..|pairs| - 1]) + LongPnl(pairs[|pairs| - 1])
  }

  function SumShort(pairs: seq<(Fill, Fill)>): real
  {
    if pairs == [] then 0.0 else SumShort(pairs[..|pairs| - 1]) + ShortPnl(pairs[|pairs| - 1])
  }

  /** The profit the source reports for two lists of aggregated orders. */
  function PositionPnl(buys: seq<Fill>, sells: seq<Fill>): real
  {
    SumLong(Zip(InPosition(buys, OPEN), InPosition(sells, CLOSE)))
    + SumShort(Zip(InPosition(sells, OPEN), InPosition(buys, CLOSE)))
  }

  /** Quote currency received less quote currency paid. */
  function Value(f: Fill): real { f.amount * f.price }

  function SumValue(fills: seq<Fill>): real
  {
    if fills == [] then 0.0 else SumValue(fills[..|fills| - 1]) + Value(fills[|fills| - 1])
  }

  function Firsts(pairs: seq<(Fill, Fill)>): seq<Fill> { seq(|pairs|, i requires 0 <= i < |pairs| => pairs[i].0) }

  function Seconds(pairs: seq<(Fill, Fill)>): seq<Fill> { seq(|pairs|, i requires 0 <= i < |pairs| => pairs[i].1) }

  /** Opening price times the amount by which opening and closing differ. */
  function Mismatch(pairs: seq<(Fill, Fill)>): real
  {
    if pairs == [] then 0.0
    else
      var pair := pairs[|pairs| - 1];
      Mismatch(pairs[..|pairs| - 1]) + pair.0.price * (pair.0.amount - pair.1.amount)
  }

  lemma {:induction false} LongIsCashFlow(pairs: seq<(Fill, Fill)>)
    ensures SumLong(pairs) == SumValue(Seconds(pairs)) - SumValue(Firsts(pairs)) + Mismatch(pairs)
  {
    if pairs != [] {
      var front, last := pairs[..|pairs| - 1], pairs[|pairs| - 1];
      LongIsCashFlow(front);
      assert Seconds(pairs)[..|pairs| - 1] == Seconds(front) && Firsts(pairs)[..|pairs| - 1] == Firsts(front);
      Distribute(last.1.price, last.0.price, last.1.amount, last.0.amount);
    }
  }

  lemma {:induction false} ShortIsCashFlow(pairs: seq<(Fill, Fill)>)
    ensures SumShort(pairs) == SumValue(Firsts(pairs)) - SumValue(Seconds(pairs)) - Mismatch(pairs)
  {
    if pairs != [] {
      var front, last := pairs[..|pairs| - 1], pairs[|pairs| - 1];
      ShortIsCashFlow(front);
      assert Seconds(pairs)[..|pairs| - 1] == Seconds(front) && Firsts(pairs)[..|pairs| - 1] == Firsts(front);
      Distribute(last.1.price, last.0.price, last.1.amount, last.0.amount);
    }
  }

  lemma Distribute(closePrice: real, openPrice: real, closeAmount: real, openAmount: real)
    ensures (closePrice - openPrice) * closeAmount
      == closeAmount * closePrice - openAmount * openPrice + openPrice * (openAmount - closeAmount)
    ensures (openPrice - closePrice) * closeAmount
      == openAmount * openPrice - closeAmount * closePrice - openPrice * (openAmount - closeAmount)
  {
  }

  /** The net quote cash flow of the paired orders: sells less buys. */
  function PairedCashFlow(buys: seq<Fill>, sells: seq<Fill>): real
  {
    var long := Zip(InPosition(buys, OPEN), InPosition(sells, CLOSE));
    var short := Zip(InPosition(sells, OPEN), InPosition(buys, CLOSE));
    SumValue(Seconds(long)) + SumValue(Firsts(short)) - SumValue(Firsts(long)) - SumValue(Seconds(short))
  }

  predicate AmountsAgree(pairs: seq<(Fill, Fill)>)
  {
    forall i :: 0 <= i < |pairs| ==> pairs[i].0.amount == pairs[i].1.amount
  }

  /** The assumption the source states: paired orders have equal amounts. */
  predicate PairedAmountsAgree(buys: seq<Fill>, sells: seq<Fill>)
  {
    && AmountsAgree(Zip(InPosition(buys, OPEN), InPosition(sells, CLOSE)))
    && AmountsAgree(Zip(InPosition(sells, OPEN), InPosition(buys, CLOSE)))
  }

  lemma {:induction false} NoMismatch(pairs: seq<(Fill, Fill)>)
    requires AmountsAgree(pairs)
    ensures Mismatch(pairs) == 0.0
  {
    if pairs != [] {
      var last := pairs[|pairs| - 1];
      NoMismatch(pairs[..|pairs| - 1]);
      assert pairs[|pairs| - 1].0.amount == pairs[|pairs| - 1].1.amount;
    }
  }

  /** Derivative profit differs from the net cash flow of the paired orders by
      exactly the mismatch of their amounts. */
  lemma PnlIsCashFlowPlusMismatch(buys: seq<Fill>, sells: seq<Fill>)
    ensures var long := Zip(InPosition(buys, OPEN), InPosition(sells, CLOSE));
      var short := Zip(InPosition(sells, OPEN), InPosition(buys, CLOSE));
      PositionPnl(buys, sells) == PairedCashFlow(buys, sells) + Mismatch(long) - Mismatch(short)
    ensures PairedAmountsAgree(buys, sells) ==> PositionPnl(buys, sells) == PairedCashFlow(buys, sells)
  {
    var long := Zip(InPosition(buys, OPEN), InPosition(sells, CLOSE));
    var short := Zip(InPosition(sells, OPEN), InPosition(buys, CLOSE));
    LongIsCashFlow(long);
    ShortIsCashFlow(short);
    if PairedAmountsAgree(buys, sells) {
      NoMismatch(long);
      NoMismatch(short);
    }
  }

  /** What the source takes for a list of derivative fills. */
  predicate AreDerivatives(trades: seq<Fill>)
  {
    trades != [] && trades[0].stored && forall t :: t in trades ==> t.position != NIL
  }

  // ---- averages and ratios -----------------------------------------------------

  /** Nothing divided by nothing is nothing. */
  function Divide(value: real, divisor: real): real { if divisor == 0.0 then 0.0 else value / divisor }

  /** The average price of one side: quote value by amount. */
  function MeanPrice(fills: seq<Fill>): real { Abs(Divide(SumValue(fills), SumAmount(fills))) }

  /** The signs of the signed volumes do not matter. */
  lemma MeanPriceOfVolumes(value: real, amount: real)
    ensures Abs(Divide(-value, amount)) == Abs(Divide(value, amount)) == Abs(Divide(value, -amount))
  {
    if amount != 0.0 {
      var q, n, m := value / amount, -value / amount, value / -amount;
      assert q * amount == value && n * amount == -value && m * -amount == value;
      assert m * -amount == -(m * amount);
      assert (n + q) * amount == 0.0 && (m + q) * amount == 0.0;
      assert n + q == 0.0 && m + q == 0.0;
    }
  }

  /** Amounts are not negative and prices lie between lo and hi. */
  predicate PricedWithin(fills: seq<Fill>, lo: real, hi: real)
  {
    forall f :: f in fills ==> f.amount >= 0.0 && lo <= f.price <= hi
  }

  predicate PricedBetween(value: real, amount: real, lo: real, hi: real)
  {
    amount >= 0.0 && lo * amount <= value <= hi * amount
  }

  lemma {:induction false} ValueWithin(fills: seq<Fill>, lo: real, hi: real)
    requires PricedWithin(fills, lo, hi)
    ensures PricedBetween(SumValue(fills), SumAmount(fills), lo, hi)
  {
    if fills != [] {
      hide PricedBetween, Value;
      var front, last := fills[..|fills| - 1], fills[|fills| - 1];
      ValueWithin(front, lo, hi);
      assert last in fills;
      OneWithin(last, lo, hi, SumAmount(front), SumValue(front));
    }
  }

  lemma OneWithin(f: Fill, lo: real, hi: real, amount: real, value: real)
    requires f.amount >= 0.0 && lo <= f.price <= hi && PricedBetween(value, amount, lo, hi)
    ensures PricedBetween(value + Value(f), amount + f.amount, lo, hi)
  {
    var a, p := f.amount, f.price;
    assert a * lo <= a * p <= a * hi;
    assert lo * (amount + a) == lo * amount + a * lo && hi * (amount + a) == hi * amount + a * hi;
  }

  /** A side without fills has no average price. */
  lemma MeanPriceOfNone()
    ensures MeanPrice([]) == 0.0
  {
  }

  /** The average price of one fill is its price, unless it is of nothing. */
  lemma MeanPriceOfOne(f: Fill)
    ensures MeanPrice([f]) == if f.amount == 0.0 then 0.0 else Abs(f.price)
  {
    assert [f][..0] == [];
    assert SumAmount([f]) == f.amount && SumValue([f]) == Value(f);
    if f.amount != 0.0 {
      var q := Value(f) / f.amount;
      assert q * f.amount == f.price * f.amount;
      assert (q - f.price) * f.amount == 0.0;
      assert q - f.price == 0.0;
    }
  }

  /** The average price over both sides is that of all their fills. */
  function TotalMeanPrice(buys: seq<Fill>, sells: seq<Fill>): real
  {
    Divide(Abs(SumValue(buys)) + Abs(SumValue(sells)), Abs(SumAmount(buys)) + Abs(SumAmount(sells)))
  }

  lemma {:induction false} SumsConcat(a: seq<Fill>, b: seq<Fill>)
    ensures SumAmount(a + b) == SumAmount(a) + SumAmount(b) && SumValue(a + b) == SumValue(a) + SumValue(b)
  {
    hide Value;
    if b == [] {
      assert a + b == a;
    } else {
      SumsConcat(a, b[..|b| - 1]);
      assert (a + b)[..|a + b| - 1] == a + b[..|b| - 1];
    }
  }

  lemma NotNegative(fills: seq<Fill>, hi: real)
    requires PricedWithin(fills, 0.0, hi)
    ensures SumAmount(fills) >= 0.0 && SumValue(fills) >= 0.0
  {
    ValueWithin(fills, 0.0, hi);
    assert 0.0 * SumAmount(fills) == 0.0;
  }

  lemma QuotientNotNegative(value: real, amount: real)
    requires value >= 0.0 && amount >= 0.0
    ensures Abs(Divide(value, amount)) == Divide(value, amount)
  {
    if amount != 0.0 {
      var q := value / amount;
      assert q * amount == value;
      assert q < 0.0 ==> q * amount < 0.0;
    }
  }

  lemma TotalMeanPriceIs(buys: seq<Fill>, sells: seq<Fill>, hi: real)
    requires PricedWithin(buys, 0.0, hi) && PricedWithin(sells, 0.0, hi)
    ensures TotalMeanPrice(buys, sells) == MeanPrice(buys + sells)
  {
    hide PricedWithin, SumAmount, SumValue, Divide;
    NotNegative(buys, hi);
    NotNegative(sells, hi);
    SumsConcat(buys, sells);
    QuotientNotNegative(SumValue(buys + sells), SumAmount(buys + sells));
  }

  /** The average price lies between the least and the greatest price paid. */
  lemma MeanPriceIsBetween(fills: seq<Fill>, lo: real, hi: real)
    requires PricedWithin(fills, lo, hi) && 0.0 <= lo && SumAmount(fills) > 0.0
    ensures lo <= MeanPrice(fills) <= hi
  {
    ValueWithin(fills, lo, hi);
    QuotientBounds(SumValue(fills), SumAmount(fills), lo, hi);
  }

  /** The part of a balance's worth that is held in base. */
  function Share(base: real, quote: real, price: real): real { Divide(base * price, Worth(base, quote, price)) }

  /** The share is what base makes of the worth; the rest is quote. */
  lemma ShareOfWorth(base: real, quote: real, price: real)
    requires Worth(base, quote, price) != 0.0
    ensures Share(base, quote, price) * Worth(base, quote, price) == base * price
    ensures (1.0 - Share(base, quote, price)) * Worth(base, quote, price) == quote
  {
    var worth, part := Worth(base, quote, price), base * price;
    var q := part / worth;
    assert q * worth == part;
    assert (1.0 - q) * worth == worth - part;
  }

  lemma ShareIsFraction(base: real, quote: real, price: real)
    requires base >= 0.0 && quote >= 0.0 && price >= 0.0
    ensures 0.0 <= Share(base, quote, price) <= 1.0
  {
    var part := base * price;
    assert part >= 0.0;
    if part + quote != 0.0 { QuotientBounds(part, part + quote, 0.0, 1.0); }
  }

  // ---- spot trades -----------------------------------------------------------

  /** The trades of one side, in list order. */
  function OnSide(trades: seq<Fill>, side: Side): seq<Fill>
  {
    if trades == [] then []
    else OnSide(trades[..|trades| - 1], side) + (if trades[|trades| - 1].side == side then [trades[|trades| - 1]] else [])
  }

  /** What one trade gained if everything is valued at `price`. */
  function BuyOne(t: Fill, price: real): real { t.amount * (price - t.price) }

  function SellOne(t: Fill, price: real): real { t.amount * (t.price - price) }

  function BuyGain(buys: seq<Fill>, price: real): real
  {
    if buys == [] then 0.0 else BuyGain(buys[..|buys| - 1], price) + BuyOne(buys[|buys| - 1], price)
  }

  function SellGain(sells: seq<Fill>, price: real): real
  {
    if sells == [] then 0.0 else SellGain(sells[..|sells| - 1], price) + SellOne(sells[|sells| - 1], price)
  }

  lemma OneTrade(t: Fill, total: real, price: real)
    ensures (total + t.amount) * price == total * price + BuyOne(t, price) + Value(t)
    ensures SellOne(t, price) == -BuyOne(t, price)
  {
    assert t.amount * (price - t.price) == t.amount * price - t.amount * t.price;
    assert t.amount * (t.price - price) == t.amount * t.price - t.amount * price;
  }

  lemma {:induction false} BuyGainIs(buys: seq<Fill>, price: real)
    ensures BuyGain(buys, price) == SumAmount(buys) * price - SumValue(buys)
  {
    hide BuyOne, Value;
    if buys != [] {
      BuyGainIs(buys[..|buys| - 1], price);
      OneTrade(buys[|buys| - 1], SumAmount(buys[..|buys| - 1]), price);
    }
  }

  lemma {:induction false} SellGainIs(sells: seq<Fill>, price: real)
    ensures SellGain(sells, price) == SumValue(sells) - SumAmount(sells) * price
  {
    hide BuyOne, SellOne, Value;
    if sells != [] {
      SellGainIs(sells[..|sells| - 1], price);
      OneTrade(sells[|sells| - 1], SumAmount(sells[..|sells| - 1]), price);
    }
  }

  /** A holding valued in quote currency. */
  function Worth(base: real, quote: real, price: real): real { base * price + quote }

  lemma WorthDifference(base: real, quote: real, bought: real, sold: real, totQuote: real, price: real)
    ensures Worth(base, quote, price) - Worth(base - (bought - sold), quote - totQuote, price)
      == bought * price - sold * price + totQuote
  {
    assert (base - (bought - sold)) * price == base * price - bought * price + sold * price;
  }

  /** What all trades of both sides gained at `price`. */
  function SpotGain(trades: seq<Fill>, price: real): real
  {
    BuyGain(OnSide(trades, BUY), price) + SellGain(OnSide(trades, SELL), price)
  }

  /** Today's value less the value of not having traded is the sum of what each
      trade gained, whatever the balances. */
  lemma SpotIdentity(trades: seq<Fill>, curBase: real, curQuote: real, totBase: real, totQuote: real, price: real)
    requires totBase == SumAmount(OnSide(trades, BUY)) - SumAmount(OnSide(trades, SELL))
    requires totQuote == SumValue(OnSide(trades, SELL)) - SumValue(OnSide(trades, BUY))
    ensures Worth(curBase, curQuote, price) - Worth(curBase - totBase, curQuote - totQuote, price) == SpotGain(trades, price)
  {
    hide OnSide, BuyGain, SellGain, SumAmount, SumValue;
    var buys, sells := OnSide(trades, BUY), OnSide(trades, SELL);
    BuyGainIs(buys, price);
    SellGainIs(sells, price);
    WorthDifference(curBase, curQuote, SumAmount(buys), SumAmount(sells), totQuote, price);
  }

  /** The trade profit the metrics report, from the trades and the price alone. */
  function TradePnl(trades: seq<Fill>, price: real): real
  {
    var buys, sells := OnSide(trades, BUY), OnSide(trades, SELL);
    if AreDerivatives(buys) || AreDerivatives(sells) then PositionPnl(Aggregate(buys), Aggregate(sells))
    else SpotGain(trades, price)
  }

  /** One trade's gain at `price`, by its side. */
  function Gain(t: Fill, price: real): real
  {
    match t.side
    case BUY => BuyOne(t, price)
    case SELL => SellOne(t, price)
    case OTHER_SIDE => 0.0
  }

  function TotalGain(trades: seq<Fill>, price: real): real
  {
    if trades == [] then 0.0 else TotalGain(trades[..|trades| - 1], price) + Gain(trades[|trades| - 1], price)
  }

  lemma GainSnoc(front: seq<Fill>, last: Fill, price: real)
    ensures BuyGain(front + [last], price) == BuyGain(front, price) + BuyOne(last, price)
    ensures SellGain(front + [last], price) == SellGain(front, price) + SellOne(last, price)
  {
    hide BuyOne, SellOne;
    assert (front + [last])[..|front|] == front;
  }

  lemma SideSnoc(front: seq<Fill>, last: Fill, side: Side)
    ensures OnSide(front + [last], side) == if last.side == side then OnSide(front, side) + [last] else OnSide(front, side)
  {
    assert (front + [last])[..|front|] == front;
  }

  lemma {:induction false} GainsBySide(trades: seq<Fill>, price: real)
    ensures BuyGain(OnSide(trades, BUY), price) + SellGain(OnSide(trades, SELL), price) == TotalGain(trades, price)
  {
    if trades != [] {
      hide OnSide, BuyGain, SellGain, BuyOne, SellOne;
      var front, last := trades[..|trades| - 1], trades[|trades| - 1];
      GainsBySide(front, price);
      assert trades == front + [last];
      SideSnoc(front, last, BUY);
      SideSnoc(front, last, SELL);
      GainSnoc(OnSide(front, BUY), last, price);
      GainSnoc(OnSide(front, SELL), last, price);
    }
  }

  /** For spot trades the reported profit is the sum over all trades of
      amount * (price - trade price), negated for sells. */
  lemma SpotPnlIsTotalGain(trades: seq<Fill>, price: real)
    requires !AreDerivatives(OnSide(trades, BUY)) && !AreDerivatives(OnSide(trades, SELL))
    ensures TradePnl(trades, price) == TotalGain(trades, price)
  {
    GainsBySide(trades, price);
  }

  /** What decides for spot: on each side there is no trade, or the first is not a
      stored fill, or some trade has no position. */
  predicate SpotSide(trades: seq<Fill>, side: Side)
  {
    var own := OnSide(trades, side);
    own == [] || !own[0].stored || exists t :: t in trades && t.side == side && t.position == NIL
  }

  lemma {:induction false} OnSideHas(trades: seq<Fill>, side: Side, t: Fill)
    ensures t in OnSide(trades, side) <==> t in trades && t.side == side
  {
    if trades != [] {
      OnSideHas(trades[..|trades| - 1], side, t);
      assert trades == trades[..|trades| - 1] + [trades[|trades| - 1]];
    }
  }

  lemma SpotSideIff(trades: seq<Fill>, side: Side)
    ensures AreDerivatives(OnSide(trades, side)) <==> !SpotSide(trades, side)
  {
    hide OnSide;
    forall t ensures t in OnSide(trades, side) <==> t in trades && t.side == side { OnSideHas(trades, side, t); }
  }

  /** The reported profit by the trades themselves: the gain of every trade if both
      sides are spot, else the cash flow of the paired orders and the mismatch of
      their amounts. */
  lemma TradePnlByTrades(trades: seq<Fill>, price: real)
    ensures SpotSide(trades, BUY) && SpotSide(trades, SELL) ==> TradePnl(trades, price) == TotalGain(trades, price)
    ensures !SpotSide(trades, BUY) || !SpotSide(trades, SELL) ==>
      var buys, sells := Aggregate(OnSide(trades, BUY)), Aggregate(OnSide(trades, SELL));
      TradePnl(trades, price) == PairedCashFlow(buys, sells)
        + Mismatch(Zip(InPosition(buys, OPEN), InPosition(sells, CLOSE)))
        - Mismatch(Zip(InPosition(sells, OPEN), InPosition(buys, CLOSE)))
  {
    hide SpotSide, AreDerivatives, TotalGain, PairedCashFlow, Mismatch, PositionPnl, Aggregate, OnSide, SpotGain, InPosition, Zip;
    SpotSideIff(trades, BUY);
    SpotSideIff(trades, SELL);
    if SpotSide(trades, BUY) && SpotSide(trades, SELL) {
      SpotPnlIsTotalGain(trades, price);
    } else {
      PnlIsCashFlowPlusMismatch(Aggregate(OnSide(trades, BUY)), Aggregate(OnSide(trades, SELL)));
    }
  }

  /** One fill without a position, bought at 100 and valued at 110, gains 10. */
  lemma SpotFillGains(id: string)
    ensures TradePnl([Fill(id, BUY, NIL, true, 100.0, 1.0)], 110.0) == 10.0
  {
    var t := Fill(id, BUY, NIL, true, 100.0, 1.0);
    assert [t][..0] == [];
    assert OnSide([t], BUY) == [t] && OnSide([t], SELL) == [];
    assert t in [t] && t.side == BUY && t.position == NIL;
    TradePnlByTrades([t], 110.0);
    assert TotalGain([], 110.0) == 0.0;
  }

  /** For derivatives whose paired amounts agree it is the net cash flow of the
      paired orders, and no price but the fills' own matters. */
  lemma DerivativePnlIsCashFlow(trades: seq<Fill>, price: real)
    requires AreDerivatives(OnSide(trades, BUY)) || AreDerivatives(OnSide(trades, SELL))
    requires PairedAmountsAgree(Aggregate(OnSide(trades, BUY)), Aggregate(OnSide(trades, SELL)))
    ensures TradePnl(trades, price) == PairedCashFlow(Aggregate(OnSide(trades, BUY)), Aggregate(OnSide(trades, SELL)))
  {
    PnlIsCashFlowPlusMismatch(Aggregate(OnSide(trades, BUY)), Aggregate(OnSide(trades, SELL)));
  }
}
