/** What the unweighted mean price of aggregate_orders (performance.py) does to
    the quote value of the fills. */
module AggregateValue {
  import opened Performance

  // ---- one order -----------------------------------------------------------

  /** How price and amount of two fills move together. */
  function Comove(x: Fill, y: Fill): real { (x.price - y.price) * (x.amount - y.amount) }

  function CrossWith(group: seq<Fill>, x: Fill): real
  {
    if group == [] then 0.0 else CrossWith(group[..|group| - 1], x) + Comove(group[|group| - 1], x)
  }

  /** The sum of Comove over all pairs of fills. */
  function Cross(group: seq<Fill>): real
  {
    if group == [] then 0.0 else Cross(group[..|group| - 1]) + CrossWith(group[..|group| - 1], group[|group| - 1])
  }

  function Cross4(n: real, values: real, prices: real, amounts: real): real { n * values - prices * amounts }

  function WithOne(n: real, values: real, prices: real, amounts: real, x: Fill): real
  {
    values - x.amount * prices - x.price * amounts + n * Value(x)
  }

  lemma WithOneMore(n: real, values: real, prices: real, amounts: real, y: Fill, x: Fill)
    ensures WithOne(n + 1.0, values + Value(y), prices + y.price, amounts + y.amount, x)
            == WithOne(n, values, prices, amounts, x) + Comove(y, x)
  {
    assert x.amount * (prices + y.price) == x.amount * prices + x.amount * y.price;
    assert x.price * (amounts + y.amount) == x.price * amounts + x.price * y.amount;
    assert (n + 1.0) * Value(x) == n * Value(x) + Value(x);
    assert Comove(y, x) == Value(y) - y.price * x.amount - x.price * y.amount + Value(x);
  }

  lemma {:induction false} CrossWithIs(group: seq<Fill>, x: Fill)
    ensures CrossWith(group, x) == WithOne(|group| as real, SumValue(group), SumPrice(group), SumAmount(group), x)
  {
    if group == [] {
      assert x.amount * 0.0 == 0.0 && x.price * 0.0 == 0.0 && 0.0 * Value(x) == 0.0;
    } else {
      hide WithOne, Comove, Value;
      var front, y := group[..|group| - 1], group[|group| - 1];
      CrossWithIs(front, x);
      WithOneMore(|front| as real, SumValue(front), SumPrice(front), SumAmount(front), y, x);
    }
  }

  lemma Cross4More(n: real, values: real, prices: real, amounts: real, x: Fill)
    ensures Cross4(n + 1.0, values + Value(x), prices + x.price, amounts + x.amount)
            == Cross4(n, values, prices, amounts) + WithOne(n, values, prices, amounts, x)
  {
    var v := Value(x);
    assert (n + 1.0) * (values + v) == n * values + values + n * v + v;
    assert (prices + x.price) * (amounts + x.amount) == prices * amounts + prices * x.amount + x.price * amounts + v;
  }

  lemma {:induction false} CrossIs(group: seq<Fill>)
    ensures Cross(group) == Cross4(|group| as real, SumValue(group), SumPrice(group), SumAmount(group))
  {
    if group == [] {
      assert 0.0 * 0.0 == 0.0;
    } else {
      hide Cross4, WithOne, Value;
      var front, x := group[..|group| - 1], group[|group| - 1];
      CrossIs(front);
      CrossWithIs(front, x);
      Cross4More(|front| as real, SumValue(front), SumPrice(front), SumAmount(front), x);
    }
  }

  /** What the merged order misses of the value of its fills. */
  function Shortfall(group: seq<Fill>): real
  {
    if group == [] then 0.0 else Cross(group) / |group| as real
  }

  lemma Divided(n: real, values: real, prices: real, amounts: real)
    requires n > 0.0
    ensures amounts * (prices / n) == values - Cross4(n, values, prices, amounts) / n
  {
    var p, c := prices / n, Cross4(n, values, prices, amounts);
    var q := c / n;
    assert p * n == prices && q * n == c;
    assert (amounts * p) * n == amounts * prices;
    assert (values - q) * n == n * values - c == prices * amounts;
    SameQuotient(amounts * p, values - q, n);
  }

  lemma SameQuotient(a: real, b: real, n: real)
    requires n > 0.0 && a * n == b * n
    ensures a == b
  {
    var d := a - b;
    assert d * n == 0.0;
  }

  /** The merged order is worth what its fills were, less the shortfall. */
  lemma MergedValue(group: seq<Fill>)
    requires group != []
    ensures Value(Merged(group)) == SumValue(group) - Shortfall(group)
  {
    hide SumValue, SumPrice, SumAmount, Cross, Cross4;
    CrossIs(group);
    Divided(|group| as real, SumValue(group), SumPrice(group), SumAmount(group));
  }

  /** Merging keeps the quote value if and only if prices and amounts do not move
      together, summed over all pairs of fills. */
  lemma MergedValueIff(group: seq<Fill>)
    requires group != []
    ensures Value(Merged(group)) == SumValue(group) <==> Cross(group) == 0.0
  {
    hide SumValue, Cross, Merged, Value;
    MergedValue(group);
    var n := |group| as real;
    var q := Cross(group) / n;
    assert q * n == Cross(group);
    if q == 0.0 { assert Cross(group) == 0.0; }
    if Cross(group) == 0.0 { SameQuotient(q, 0.0, n); }
  }

  /** Two fills keep their value exactly at one price or in equal amounts. */
  lemma TwoFillsIff(x: Fill, y: Fill)
    ensures Value(Merged([x, y])) == SumValue([x, y]) <==> x.price == y.price || x.amount == y.amount
  {
    hide Merged, Value, SumValue;
    MergedValueIff([x, y]);
    assert [x, y][..1] == [x] && [x][..0] == [];
    assert Cross([x]) == 0.0 && CrossWith([x], y) == Comove(x, y);
  }

  /** Fills of 1 at price 1 and 3 at price 3 are worth 10, the merged order 8. */
  lemma MergingLosesValue(id: string, side: Side, position: Position)
    ensures var x, y := Fill(id, side, position, true, 1.0, 1.0), Fill(id, side, position, true, 3.0, 3.0);
            SumValue([x, y]) == 10.0 && Value(Merged([x, y])) == 8.0
  {
    var x, y := Fill(id, side, position, true, 1.0, 1.0), Fill(id, side, position, true, 3.0, 3.0);
    assert [x, y][..1] == [x] && [x][..0] == [];
    assert SumValue([x]) == 1.0 && SumAmount([x]) == 1.0 && SumPrice([x]) == 1.0;
    assert SumAmount([x, y]) == 4.0 && SumPrice([x, y]) == 4.0;
  }

  // ---- a whole list --------------------------------------------------------

  function Shortfalls(fills: seq<Fill>, ids: seq<string>): real
  {
    if ids == [] then 0.0 else Shortfalls(fills, ids[..|ids| - 1]) + Shortfall(WithId(fills, ids[|ids| - 1]))
  }

  /** The fills with their quote value in place of the amount. */
  function Valued(fills: seq<Fill>): seq<Fill>
  {
    if fills == [] then []
    else Valued(fills[..|fills| - 1]) + [fills[|fills| - 1].(amount := Value(fills[|fills| - 1]))]
  }

  lemma {:induction false} ValuedSums(fills: seq<Fill>)
    ensures SumAmount(Valued(fills)) == SumValue(fills)
  {
    hide Value;
    if fills != [] {
      var front := fills[..|fills| - 1];
      ValuedSums(front);
      assert Valued(fills)[..|Valued(fills)| - 1] == Valued(front);
    }
  }

  lemma ValuedSnoc(front: seq<Fill>, last: Fill)
    ensures Valued(front + [last]) == Valued(front) + [last.(amount := Value(last))]
  {
    hide Value;
    assert (front + [last])[..|front|] == front;
  }

  lemma WithIdSnoc(front: seq<Fill>, last: Fill, id: string)
    ensures WithId(front + [last], id) == if last.id == id then WithId(front, id) + [last] else WithId(front, id)
  {
    assert (front + [last])[..|front|] == front;
  }

  lemma {:induction false} ValuedGroups(fills: seq<Fill>, id: string)
    ensures WithId(Valued(fills), id) == Valued(WithId(fills, id))
  {
    if fills != [] {
      hide Value, Valued, WithId;
      var front, last := fills[..|fills| - 1], fills[|fills| - 1];
      ValuedGroups(front, id);
      assert fills == front + [last];
      ValuedSnoc(front, last);
      WithIdSnoc(front, last, id);
      WithIdSnoc(Valued(front), last.(amount := Value(last)), id);
      ValuedSnoc(WithId(front, id), last);
    }
  }

  lemma {:induction false} ValuedIds(fills: seq<Fill>, ids: seq<string>)
    requires forall f :: f in fills ==> f.id in ids
    ensures forall f :: f in Valued(fills) ==> f.id in ids
  {
    hide Value;
    if fills != [] { ValuedIds(fills[..|fills| - 1], ids); }
  }

  lemma NothingMerged(fills: seq<Fill>)
    ensures SumValue([]) == 0.0 == AmountOf(Valued(fills), []) && Shortfalls(fills, []) == 0.0
  {
  }

  lemma {:induction false} MergedValuesById(fills: seq<Fill>, k: nat)
    requires k <= |FirstIds(fills)|
    ensures SumValue(Aggregate(fills)[..k])
            == AmountOf(Valued(fills), FirstIds(fills)[..k]) - Shortfalls(fills, FirstIds(fills)[..k])
  {
    hide *;
    var orders, ids := Aggregate(fills), FirstIds(fills);
    if k == 0 {
      assert orders[..0] == [] && ids[..0] == [];
      NothingMerged(fills);
    } else {
      MergedValuesById(fills, k - 1);
      var group := WithId(fills, ids[k - 1]);
      assert orders[..k] == orders[..k - 1] + [orders[k - 1]] && ids[..k] == ids[..k - 1] + [ids[k - 1]];
      MergedValue(group);
      ValuedGroups(fills, ids[k - 1]);
      ValuedSums(group);
      ValueSnoc(orders[..k - 1], orders[k - 1]);
      AmountSnoc(Valued(fills), ids[..k - 1], ids[k - 1]);
      ShortfallSnoc(fills, ids[..k - 1], ids[k - 1]);
    }
  }

  lemma ValueSnoc(front: seq<Fill>, last: Fill)
    ensures SumValue(front + [last]) == SumValue(front) + Value(last)
  {
    hide Value;
    assert (front + [last])[..|front|] == front;
  }

  lemma AmountSnoc(fills: seq<Fill>, ids: seq<string>, id: string)
    ensures AmountOf(fills, ids + [id]) == AmountOf(fills, ids) + SumAmount(WithId(fills, id))
  {
    hide WithId, SumAmount;
    assert (ids + [id])[..|ids|] == ids;
  }

  lemma ShortfallSnoc(fills: seq<Fill>, ids: seq<string>, id: string)
    ensures Shortfalls(fills, ids + [id]) == Shortfalls(fills, ids) + Shortfall(WithId(fills, id))
  {
    hide WithId, Shortfall;
    assert (ids + [id])[..|ids|] == ids;
  }

  /** Aggregation conserves the quote value of a list but for the shortfalls of
      its orders. */
  lemma AggregateConservesValueBut(fills: seq<Fill>)
    ensures SumValue(Aggregate(fills)) == SumValue(fills) - Shortfalls(fills, FirstIds(fills))
  {
    hide SumValue, Aggregate, Valued, AmountOf, Shortfalls, FirstIds, SumAmount, WithId;
    var ids := FirstIds(fills);
    IdsAppear(fills);
    ValuedIds(fills, ids);
    GroupedTotal(Valued(fills), ids);
    ValuedSums(fills);
    MergedValuesById(fills, |ids|);
    assert Aggregate(fills)[..|ids|] == Aggregate(fills) && ids[..|ids|] == ids;
  }

  // ---- closed positions ------------------------------------------------------

  /** Every order opens or closes, and each side's opens match the other's closes. */
  predicate ClosedOut(buys: seq<Fill>, sells: seq<Fill>)
  {
    && (forall f :: f in buys + sells ==> f.position == OPEN || f.position == CLOSE)
    && |InPosition(buys, OPEN)| == |InPosition(sells, CLOSE)| && |InPosition(sells, OPEN)| == |InPosition(buys, CLOSE)|
  }

  lemma ValueCons(x: Fill, rest: seq<Fill>)
    ensures SumValue([x] + rest) == Value(x) + SumValue(rest)
    decreases |rest|
  {
    hide Value;
    if rest == [] {
      assert [x] + rest == [x] && [x][..0] == [];
    } else {
      ValueCons(x, rest[..|rest| - 1]);
      assert ([x] + rest)[..|rest|] == [x] + rest[..|rest| - 1];
    }
  }

  lemma {:induction false} ValueByPosition(orders: seq<Fill>)
    requires forall f :: f in orders ==> f.position == OPEN || f.position == CLOSE
    ensures SumValue(InPosition(orders, OPEN)) + SumValue(InPosition(orders, CLOSE)) == SumValue(orders)
  {
    if orders != [] {
      hide Value, SumValue, InPosition;
      var x, rest := orders[0], orders[1..];
      assert orders == [x] + rest;
      ValueByPosition(rest);
      ValueCons(x, rest);
      ValueCons(x, InPosition(rest, x.position));
      InPositionCons(x, rest, OPEN);
      InPositionCons(x, rest, CLOSE);
    }
  }

  lemma ZipParts(opens: seq<Fill>, closes: seq<Fill>)
    requires |opens| == |closes|
    ensures Firsts(Zip(opens, closes)) == opens && Seconds(Zip(opens, closes)) == closes
  {
  }

  /** Once every position is closed in equal amounts, derivative profit is the net
      cash flow of the fills themselves, corrected by what aggregation took from
      each side. */
  lemma ClosedPnlOfFills(trades: seq<Fill>, price: real)
    requires AreDerivatives(OnSide(trades, BUY)) || AreDerivatives(OnSide(trades, SELL))
    requires var buys, sells := Aggregate(OnSide(trades, BUY)), Aggregate(OnSide(trades, SELL));
             PairedAmountsAgree(buys, sells) && ClosedOut(buys, sells)
    ensures var buys, sells := OnSide(trades, BUY), OnSide(trades, SELL);
            TradePnl(trades, price)
            == SumValue(sells) - SumValue(buys) + Shortfalls(buys, FirstIds(buys)) - Shortfalls(sells, FirstIds(sells))
  {
    hide OnSide, Aggregate, TradePnl, AreDerivatives, SumValue, InPosition, Zip, Shortfalls, FirstIds;
    var buys, sells := Aggregate(OnSide(trades, BUY)), Aggregate(OnSide(trades, SELL));
    DerivativePnlIsCashFlow(trades, price);
    AggregateConservesValueBut(OnSide(trades, BUY));
    AggregateConservesValueBut(OnSide(trades, SELL));
    ZipParts(InPosition(buys, OPEN), InPosition(sells, CLOSE));
    ZipParts(InPosition(sells, OPEN), InPosition(buys, CLOSE));
    assert forall f :: f in buys || f in sells ==> f in buys + sells;
    ValueByPosition(buys);
    ValueByPosition(sells);
  }
}
