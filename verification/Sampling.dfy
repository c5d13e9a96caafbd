/** Price history and sampling of hummingbot/pmm_script/pmm_script_base.py. */
module Sampling {
  import opened Basics
  import opened Sorting

  datatype Error = ZeroStep | NothingToGet | DivisionByZero

  datatype Outcome<+T> = Return(value: T) | NotEnough | Raise(error: Error)

  // ---- take_samples ------------------------------------------------------

  const BY_INT: Order<int> := (a, b) => a <= b

  /** range(start, -1, -interval) */
  function CountDown(start: int, interval: int): (r: seq<int>)
    requires interval != 0 && start >= -1
    ensures forall i :: 0 <= i < |r| ==> 0 <= r[i] <= start
    decreases start
  {
    if start < 0 || interval < 0 then []
    else [start] + if start < interval then [] else CountDown(start - interval, interval)
  }

  /** s[-n:] */
  function Last<T>(s: seq<T>, n: int): seq<T> {
    if n > 0 then (if n < |s| then s[|s| - n..] else s)
    else if -n < |s| then s[-n..] else []
  }

  /** The entries of a at the given places. */
  function Pick<T>(a: seq<T>, indices: seq<int>): seq<T>
    requires forall i :: 0 <= i < |indices| ==> 0 <= indices[i] < |a|
  {
    seq(|indices|, i requires 0 <= i < |indices| => a[indices[i]])
  }

  function IndexList(n: nat, interval: int, length: int): (r: seq<int>)
    requires interval != 0
    ensures forall i :: 0 <= i < |r| ==> 0 <= r[i] < n
  {
    SortedStays(CountDown(n - 1, interval), n);
    Last(Sorted(CountDown(n - 1, interval), BY_INT), length)
  }

  function TakeSamples<T>(a: seq<T>, interval: int, length: int): Outcome<seq<T>> {
    if interval == 0 then Raise(ZeroStep)
    else
      var indices := IndexList(|a|, interval, length);
      if |indices| < length then NotEnough
      else if |indices| == 0 then Raise(NothingToGet)
      else Return(Pick(a, indices))
  }

  lemma SortedStays(s: seq<int>, n: int)
    requires forall i :: 0 <= i < |s| ==> 0 <= s[i] < n
    ensures forall i :: 0 <= i < |Sorted(s, BY_INT)| ==> 0 <= Sorted(s, BY_INT)[i] < n
  {
    SortedIsAscending(s, BY_INT);
    var r := Sorted(s, BY_INT);
    forall i | 0 <= i < |r| ensures 0 <= r[i] < n {
      assert r[i] in multiset(r);
      assert r[i] in s;
    }
  }

  lemma {:induction false} InsertLargest(x: int, s: seq<int>)
    requires forall i :: 0 <= i < |s| ==> s[i] < x
    ensures Insert(x, s, BY_INT) == s + [x]
  {
    if s != [] { InsertLargest(x, s[1..]); }
  }

  /** r lists, in steps of interval and ending at last, all the places down to
      the first. */
  ghost predicate Strided(r: seq<int>, last: int, interval: int) {
    && |r| >= 1
    && (|r| - 1) * interval <= last < |r| * interval
    && forall i :: 0 <= i < |r| ==> r[i] == last - (|r| - 1 - i) * interval
  }

  lemma {:induction false} SortedCountDown(start: nat, interval: int)
    requires interval >= 1
    ensures Strided(Sorted(CountDown(start, interval), BY_INT), start, interval)
    decreases start
  {
    if start < interval {
      assert CountDown(start, interval)[1..] == [];
    } else {
      var prev := CountDown(start - interval, interval);
      SortedCountDown(start - interval, interval);
      assert CountDown(start, interval)[1..] == prev;
      var below := Sorted(prev, BY_INT);
      SortedStays(prev, start);
      InsertLargest(start, below);
      StridedGrows(below, start - interval, interval);
    }
  }

  lemma StridedGrows(r: seq<int>, last: int, interval: int)
    requires Strided(r, last, interval)
    ensures Strided(r + [last + interval], last + interval, interval)
  {
    var r' := r + [last + interval];
    assert (|r'| - 1) * interval == (|r| - 1) * interval + interval;
    assert |r'| * interval == |r| * interval + interval;
    forall i | 0 <= i < |r'| ensures r'[i] == last + interval - (|r'| - 1 - i) * interval {
      if i < |r| { assert (|r'| - 1 - i) * interval == (|r| - 1 - i) * interval + interval; }
    }
  }

  lemma MulOrder(a: int, b: int, k: int)
    requires k >= 1
    ensures a * k <= b * k <==> a <= b
  {
    if a < b { assert b * k == a * k + (b - a) * k; } else { assert a * k == b * k + (a - b) * k; }
  }

  /** Where sample i of a list of n entries lies: the last sample is the last
      entry and they are interval apart. */
  function Place(n: int, interval: int, length: int, i: int): int { n - 1 - (length - 1 - i) * interval }

  predicate Enough(n: nat, interval: int, length: int) { (length - 1) * interval < n }

  lemma LastOfStrided(all: seq<int>, n: nat, interval: int, length: int)
    requires n >= 1 && interval >= 1 && 1 <= length <= |all| && Strided(all, n - 1, interval)
    ensures Enough(n, interval, length)
    ensures |Last(all, length)| == length
    ensures forall i :: 0 <= i < length ==> Last(all, length)[i] == Place(n, interval, length, i)
  {
    MulOrder(length - 1, |all| - 1, interval);
    var skip := |all| - length;
    forall i | 0 <= i < length ensures all[skip + i] == Place(n, interval, length, i) {
      assert |all| - 1 - (skip + i) == length - 1 - i;
    }
  }

  lemma ShortOfStrided(all: seq<int>, n: nat, interval: int, length: int)
    requires n >= 1 && interval >= 1 && |all| < length && Strided(all, n - 1, interval)
    ensures !Enough(n, interval, length)
  {
    MulOrder(|all|, length - 1, interval);
  }

  lemma Indices(n: nat, interval: int, length: int)
    requires interval >= 1 && length >= 1
    ensures |IndexList(n, interval, length)| >= length <==> Enough(n, interval, length)
    ensures Enough(n, interval, length) ==>
              && |IndexList(n, interval, length)| == length
              && forall i :: 0 <= i < length ==> IndexList(n, interval, length)[i] == Place(n, interval, length, i)
  {
    hide *;
    if n == 0 {
      NoIndices(interval, length);
    } else {
      var all := Sorted(CountDown(n - 1, interval), BY_INT);
      SortedCountDown(n - 1, interval);
      IndexListIs(n, interval, length, all);
      if length <= |all| {
        LastOfStrided(all, n, interval, length);
      } else {
        ShortOfStrided(all, n, interval, length);
        LastIsShorter(all, length);
      }
    }
  }

  lemma NoIndices(interval: int, length: int)
    requires interval >= 1 && length >= 1
    ensures IndexList(0, interval, length) == [] && !Enough(0, interval, length)
  {
    MulOrder(0, length - 1, interval);
  }

  lemma IndexListIs(n: nat, interval: int, length: int, all: seq<int>)
    requires n >= 1 && interval >= 1 && all == Sorted(CountDown(n - 1, interval), BY_INT)
    ensures IndexList(n, interval, length) == Last(all, length)
  {
  }

  lemma LastIsShorter(s: seq<int>, n: int)
    ensures |Last(s, n)| <= |s|
  {
  }

  /** Sampling succeeds exactly when the oldest sample lies in the list, and
      then returns the entries at the sample places. */
  lemma TakeSamplesIff<T>(a: seq<T>, interval: int, length: int)
    requires interval >= 1 && length >= 1
    ensures TakeSamples(a, interval, length) == NotEnough <==> !Enough(|a|, interval, length)
    ensures Enough(|a|, interval, length) ==>
              var r := TakeSamples(a, interval, length);
              && r.Return? && |r.value| == length
              && forall i :: 0 <= i < length ==>
                   0 <= Place(|a|, interval, length, i) < |a| && r.value[i] == a[Place(|a|, interval, length, i)]
  {
    Indices(|a|, interval, length);
    hide IndexList, Place, Enough;
  }

  /** Asking for no samples takes as many as the list has. */
  lemma ZeroLengthTakesAll<T>(a: seq<T>, interval: int) returns (n: int)
    requires interval >= 1 && a != []
    ensures n >= 1 && Enough(|a|, interval, n) && !Enough(|a|, interval, n + 1)
    ensures TakeSamples(a, interval, 0) == TakeSamples(a, interval, n)
  {
    var all := Sorted(CountDown(|a| - 1, interval), BY_INT);
    SortedCountDown(|a| - 1, interval);
    n := |all|;
    IndexListIs(|a|, interval, 0, all);
    IndexListIs(|a|, interval, n, all);
  }

  // ---- the bounded history -----------------------------------------------

  /** Appending one price and trimming, as on every tick. */
  function Ticked<T>(kept: seq<T>, price: T, limit: nat): seq<T> {
    Latest(kept + [price], limit)
  }

  function History<T>(ticks: seq<T>, limit: nat): seq<T> {
    if ticks == [] then [] else Ticked(History(ticks[..|ticks| - 1], limit), ticks[|ticks| - 1], limit)
  }

  /** After any run of ticks the history is the newest part of all the ticks. */
  lemma {:induction false} HistoryIsLatest<T>(ticks: seq<T>, limit: nat)
    ensures History(ticks, limit) == Latest(ticks, limit)
  {
    if ticks != [] {
      HistoryIsLatest(ticks[..|ticks| - 1], limit);
      assert ticks == ticks[..|ticks| - 1] + [ticks[|ticks| - 1]];
    }
  }

  /** Sampling the bounded history gives the answer of the full one exactly
      when the oldest sample is within the bound or older than every tick. */
  lemma SamplesOfHistoryIff<T>(ticks: seq<T>, limit: nat, interval: int, length: int)
    requires interval >= 1 && length >= 1
    ensures TakeSamples(History(ticks, limit), interval, length) == TakeSamples(ticks, interval, length)
            <==> Enough(limit, interval, length) || !Enough(|ticks|, interval, length)
  {
    hide TakeSamples, History;
    var kept := History(ticks, limit);
    HistoryIsLatest(ticks, limit);
    TakeSamplesIff(kept, interval, length);
    TakeSamplesIff(ticks, interval, length);
    if Enough(|kept|, interval, length) {
      var r, full := TakeSamples(kept, interval, length).value, TakeSamples(ticks, interval, length).value;
      forall i | 0 <= i < length ensures r[i] == full[i] {
        var p, q := Place(|kept|, interval, length, i), Place(|ticks|, interval, length, i);
        assert q == p + |ticks| - |kept|;
        assert kept[p] == ticks[q];
      }
      assert r == full;
    }
  }

  // ---- volatility --------------------------------------------------------

  function Max(a: real, b: real): real { if a >= b then a else b }
  function Min(a: real, b: real): real { if a <= b then a else b }

  function Change(a: real, b: real): real
    requires Min(a, b) != 0.0
  {
    Max(a, b) / Min(a, b) - 1.0
  }

  predicate Positive(s: seq<real>) { forall i :: 0 <= i < |s| ==> s[i] > 0.0 }

  /** No two neighbours have zero as their smaller price. */
  predicate Divisible(s: seq<real>) { forall i :: 0 < i < |s| ==> Min(s[i], s[i - 1]) != 0.0 }

  function Changes(s: seq<real>): seq<real>
    requires Divisible(s)
  {
    if |s| < 2 then [] else Changes(s[..|s| - 1]) + [Change(s[|s| - 1], s[|s| - 2])]
  }

  lemma ChangeOrder(a: real, b: real)
    requires a > 0.0 && b > 0.0
    ensures Change(a, b) == Change(b, a) >= 0.0
    ensures Change(a, b) == 0.0 <==> a == b
    ensures a <= (1.0 + Change(b, a)) * b && b <= (1.0 + Change(b, a)) * a
    ensures a == (1.0 + Change(b, a)) * b || b == (1.0 + Change(b, a)) * a
  {
    Quotient(Max(a, b), Min(a, b));
  }

  lemma Quotient(hi: real, lo: real)
    requires hi >= lo > 0.0
    ensures hi / lo >= 1.0 && (hi / lo == 1.0 <==> hi == lo)
    ensures (hi / lo) * lo == hi && lo <= (hi / lo) * hi
  {
    var q := hi / lo;
    var d := q - 1.0;
    assert q * lo == hi;
    assert d * lo == hi - lo;
    ProductSign(d, lo);
    MulMono(1.0, q, hi);
  }

  function Growth(changes: seq<real>): real {
    if changes == [] then 1.0 else Growth(changes[..|changes| - 1]) * (1.0 + changes[|changes| - 1])
  }

  lemma MulMono(a: real, b: real, k: real)
    requires a <= b && k >= 0.0
    ensures k * a <= k * b
  {
  }

  /** The changes bound the whole move, up or down: compounding them covers the
      way from the first sample to the last. */
  lemma {:induction false} ChangesCoverMove(s: seq<real>)
    requires Positive(s) && s != []
    ensures Growth(Changes(s)) >= 1.0
    ensures s[|s| - 1] <= Growth(Changes(s)) * s[0] && s[0] <= Growth(Changes(s)) * s[|s| - 1]
  {
    hide Growth, Min, Max, Change, Changes;
    if |s| > 1 {
      var front, last, prev := s[..|s| - 1], s[|s| - 1], s[|s| - 2];
      ChangesCoverMove(front);
      ChangesSnoc(s);
      ChangeOrder(prev, last);
      GrowthSnoc(Changes(front), Change(last, prev));
      Compound(s[0], prev, last, Growth(Changes(front)), Change(last, prev));
    } else {
      GrowthOfOne(s);
    }
  }

  lemma ChangesSnoc(s: seq<real>)
    requires Positive(s) && |s| >= 2
    ensures Positive(s[..|s| - 1]) && Divisible(s) && Divisible(s[..|s| - 1])
    ensures Min(s[|s| - 1], s[|s| - 2]) != 0.0
    ensures Changes(s) == Changes(s[..|s| - 1]) + [Change(s[|s| - 1], s[|s| - 2])]
  {
    hide Change;
  }

  lemma GrowthOfOne(s: seq<real>)
    requires |s| == 1
    ensures Growth(Changes(s)) == 1.0
  {
  }

  lemma GrowthSnoc(changes: seq<real>, c: real)
    ensures Growth(changes + [c]) == Growth(changes) * (1.0 + c)
  {
    assert (changes + [c])[..|changes|] == changes;
  }

  lemma Compound(first: real, prev: real, last: real, g: real, c: real)
    requires first > 0.0 && prev > 0.0 && last > 0.0 && g >= 1.0 && c >= 0.0
    requires prev <= g * first && first <= g * prev
    requires prev <= (1.0 + c) * last && last <= (1.0 + c) * prev
    ensures g * (1.0 + c) >= 1.0
    ensures last <= g * (1.0 + c) * first && first <= g * (1.0 + c) * last
  {
    var k := 1.0 + c;
    MulMono(prev, g * first, k);
    assert k * (g * first) == g * k * first;
    MulMono(prev, k * last, g);
    assert g * (k * last) == g * k * last;
    MulMono(1.0, g, k);
  }

  function Times(k: real, a: real): real { k * a }

  function Scaled(s: seq<real>, k: real): (r: seq<real>)
    ensures |r| == |s|
  {
    if s == [] then [] else Scaled(s[..|s| - 1], k) + [Times(k, s[|s| - 1])]
  }

  /** Volatility does not depend on the unit of the price. */
  lemma {:induction false} ChangesScale(s: seq<real>, k: real)
    requires Positive(s) && k > 0.0
    ensures Positive(Scaled(s, k)) && Changes(Scaled(s, k)) == Changes(s)
  {
    hide Change, Changes, Min, Max, Times, Divisible;
    if s == [] {
      NoChanges(s);
    } else {
      var front, last := s[..|s| - 1], s[|s| - 1];
      ChangesScale(front, k);
      ScaledPositive(last, k);
      var scaled := Scaled(s, k);
      assert scaled == Scaled(front, k) + [Times(k, last)];
      assert scaled[..|front|] == Scaled(front, k);
      if |s| >= 2 {
        assert scaled[|s| - 2] == Times(k, s[|s| - 2]);
        hide Scaled;
        ChangeScales(last, s[|s| - 2], k);
        ChangesSnoc(s);
        ChangesSnoc(scaled);
      } else {
        NoChanges(s);
        NoChanges(scaled);
      }
    }
  }

  lemma NoChanges(s: seq<real>)
    requires Positive(s) && |s| < 2
    ensures Divisible(s) && Changes(s) == []
  {
  }

  lemma ScaledPositive(a: real, k: real)
    requires a > 0.0 && k > 0.0
    ensures Times(k, a) > 0.0
  {
  }

  lemma ChangeScales(a: real, b: real, k: real)
    requires a > 0.0 && b > 0.0 && k > 0.0
    ensures Times(k, a) > 0.0 && Times(k, b) > 0.0 && Change(Times(k, a), Times(k, b)) == Change(a, b)
  {
    ScaledPositive(a, k);
    ScaledPositive(b, k);
    if a >= b { MulMono(b, a, k); QuotientScales(a, b, k); } else { MulMono(a, b, k); QuotientScales(b, a, k); }
  }

  lemma QuotientScales(a: real, b: real, k: real)
    requires b > 0.0 && k > 0.0 && k * b > 0.0
    ensures (k * a) / (k * b) == a / b
  {
    var q := a / b;
    assert q * b == a;
    assert k * a == q * (k * b);
    QuotientIs(k * a, k * b, q);
  }

  lemma QuotientIs(a: real, b: real, q: real)
    requires b > 0.0 && a == q * b
    ensures a / b == q
  {
  }

  class PMMScriptBase {
    var midPrices: seq<real>
    var maxMidPricesLength: nat
    ghost var ticks: seq<real>

    ghost predicate Valid()
      reads this
    {
      midPrices == History(ticks, maxMidPricesLength)
    }

    constructor (maxMidPricesLength: nat)
      ensures Valid() && ticks == [] && this.maxMidPricesLength == maxMidPricesLength
    {
      midPrices, ticks := [], [];
      this.maxMidPricesLength := maxMidPricesLength;
    }

    /** The OnTick branch of listen_to_parent. */
    method OnTick(midPrice: real)
      requires Valid()
      modifies this
      ensures Valid() && ticks == old(ticks) + [midPrice] && maxMidPricesLength == old(maxMidPricesLength)
    {
      midPrices := midPrices + [midPrice];
      if |midPrices| > maxMidPricesLength {
        midPrices := midPrices[|midPrices| - maxMidPricesLength..];
      }
      ticks := ticks + [midPrice];
      assert ticks[..|ticks| - 1] == old(ticks);
    }

    /** The changes between neighbouring samples, handed to the caller's mean,
        median or other centre. */
    method LocateCentralPriceVolatility(interval: int, length: int, locate: seq<real> -> Outcome<real>)
        returns (r: Outcome<real>)
      ensures r == Volatility(midPrices, interval, length, locate)
    {
      var taken := TakeSamples(midPrices, interval, length + 1);
      if taken.NotEnough? { return NotEnough; }
      if taken.Raise? { return Raise(taken.error); }
      r := Central(taken.value, locate);
    }
  }

  method Central(samples: seq<real>, locate: seq<real> -> Outcome<real>) returns (r: Outcome<real>)
    requires samples != []
    ensures r == if Divisible(samples) then locate(Changes(samples)) else Raise(DivisionByZero)
  {
    hide Min, Max;
    var changes, index := [], 1;
    while index < |samples|
      invariant 1 <= index <= |samples|
      invariant Divisible(samples[..index]) && changes == Changes(samples[..index])
    {
      ghost var upto := samples[..index + 1];
      assert upto[..index] == samples[..index];
      var least := Min(samples[index], samples[index - 1]);
      if least == 0.0 {
        assert !Divisible(samples);
        return Raise(DivisionByZero);
      }
      changes := changes + [Max(samples[index], samples[index - 1]) / least - 1.0];
      index := index + 1;
    }
    assert samples[..|samples|] == samples;
    r := locate(changes);
  }

  function Volatility(prices: seq<real>, interval: int, length: int, locate: seq<real> -> Outcome<real>): Outcome<real> {
    match TakeSamples(prices, interval, length + 1)
    case NotEnough => NotEnough
    case Raise(e) => Raise(e)
    case Return(s) => if Divisible(s) then locate(Changes(s)) else Raise(DivisionByZero)
  }

  lemma {:induction false} ChangesAt(s: seq<real>, i: nat)
    requires Positive(s) && i + 1 < |s|
    ensures Divisible(s) && |Changes(s)| == |s| - 1 && Changes(s)[i] == Change(s[i + 1], s[i])
  {
    hide Change, Changes;
    ChangesSnoc(s);
    var front := s[..|s| - 1];
    if i + 1 < |front| {
      ChangesAt(front, i);
    } else if |front| >= 2 {
      ChangesAt(front, 0);
    } else {
      NoChanges(front);
    }
  }

  /** Over positive prices with enough history the centre is asked of exactly
      `length` changes, each between two samples an interval apart; with less
      history there is no answer. */
  lemma VolatilityIs(prices: seq<real>, interval: int, length: int, locate: seq<real> -> Outcome<real>)
    requires Positive(prices) && interval >= 1 && length >= 1
    ensures length * interval >= |prices| ==> Volatility(prices, interval, length, locate) == NotEnough
    ensures length * interval < |prices| ==>
      exists changes :: |changes| == length && Volatility(prices, interval, length, locate) == locate(changes)
        && forall i :: 0 <= i < length ==> IsChangeAt(prices, interval, length, changes[i], i)
  {
    hide TakeSamples, Changes, Change, Place;
    TakeSamplesIff(prices, interval, length + 1);
    assert Enough(|prices|, interval, length + 1) <==> length * interval < |prices|;
    if length * interval < |prices| {
      var samples := TakeSamples(prices, interval, length + 1).value;
      assert Positive(samples);
      ChangesAt(samples, 0);
      var changes := Changes(samples);
      forall i | 0 <= i < length ensures IsChangeAt(prices, interval, length, changes[i], i) {
        ChangesAt(samples, i);
      }
    }
  }

  ghost predicate IsChangeAt(prices: seq<real>, interval: int, length: int, change: real, i: int)
    requires Positive(prices)
  {
    var n := |prices|;
    var p, q := Place(n, interval, length + 1, i), Place(n, interval, length + 1, i + 1);
    0 <= p < n && 0 <= q < n && change == Change(prices[q], prices[p])
  }

  /** The arguments that are no sampling: a zero interval raises; a negative one
      finds nothing, which raises unless a sample was asked for. */
  lemma TakeSamplesOtherwise<T>(a: seq<T>, interval: int, length: int)
    requires interval <= 0
    ensures TakeSamples(a, interval, length)
            == if interval == 0 then Raise(ZeroStep) else if length >= 1 then NotEnough else Raise(NothingToGet)
  {
  }

  /** The bounded history gives the volatility of all the ticks as long as the
      samples reach back less than the bound. */
  lemma VolatilityOfHistory(ticks: seq<real>, limit: nat, interval: int, length: int,
                            locate: seq<real> -> Outcome<real>)
    requires interval >= 1 && length >= 0 && length * interval < limit
    ensures Volatility(History(ticks, limit), interval, length, locate) == Volatility(ticks, interval, length, locate)
  {
    assert Enough(limit, interval, length + 1);
    SamplesOfHistoryIff(ticks, limit, interval, length + 1);
  }

  // ---- round_by_step -----------------------------------------------------

  /** Decimal // keeps the integer part of the quotient. */
  function Trunc(q: real): int { if q >= 0.0 then q.Floor else -(-q).Floor }

  function RoundByStep(a: real, step: real): real
    requires step != 0.0
  {
    Trunc(a / step) as real * step
  }

  function Multiple(k: int, step: real): real { k as real * step }

  ghost predicate IsMultiple(a: real, step: real) { exists k: int :: a == Multiple(k, step) }

  /** The result is a multiple of the step less than one step away, towards
      zero; it is rounded down exactly when a >= 0 or a is itself a multiple. */
  lemma RoundByStepTowardsZero(a: real, step: real)
    requires step != 0.0
    ensures Abs(a - RoundByStep(a, step)) < Abs(step) && Abs(RoundByStep(a, step)) <= Abs(a)
    ensures IsMultiple(RoundByStep(a, step), step)
    ensures RoundByStep(a, step) <= a <==> a >= 0.0 || IsMultiple(a, step)
  {
    TruncatedQuotient(a, step);
    assert RoundByStep(a, step) == Multiple(Trunc(a / step), step);
    hide RoundByStep, Abs;
    if IsMultiple(a, step) {
      var k: int :| a == Multiple(k, step);
      RoundOfMultiple(k, step);
    }
  }

  lemma TruncatedQuotient(a: real, step: real)
    requires step != 0.0
    ensures Abs(a - RoundByStep(a, step)) < Abs(step) && Abs(RoundByStep(a, step)) <= Abs(a)
    ensures RoundByStep(a, step) <= a <==> a >= 0.0 || RoundByStep(a, step) == a
  {
    var q := a / step;
    assert q * step == a;
    var t := Trunc(q) as real;
    assert RoundByStep(a, step) == t * step;
    assert a - t * step == (q - t) * step;
    TruncParts(q);
    ProductSign(q, step);
    ProductSign(t, step);
    ProductSign(q - t, step);
    ProductBelow(q - t, step);
  }

  lemma RoundOfMultiple(k: int, step: real)
    requires step != 0.0
    ensures RoundByStep(Multiple(k, step), step) == Multiple(k, step)
  {
    var p := k as real;
    var q := Multiple(k, step) / step;
    assert q * step == p * step;
    var d := q - p;
    assert d * step == 0.0;
    ProductSign(d, step);
    assert q == p;
    assert Trunc(p) == k;
  }

  /** The promise to round down fails below zero, off the multiples. */
  lemma RoundByStepRoundsUp()
    ensures RoundByStep(-1.8, 0.25) == -1.75 > -1.8
  {
    assert -1.8 / 0.25 == -7.2;
    assert Trunc(-7.2) == -7;
  }

  lemma TruncParts(q: real)
    ensures var t := Trunc(q) as real; Abs(q - t) < 1.0 && if q >= 0.0 then 0.0 <= t <= q else q <= t <= 0.0
  {
  }

  lemma ProductSign(p: real, step: real)
    requires step != 0.0
    ensures p * step == 0.0 <==> p == 0.0
    ensures p * step >= 0.0 <==> p == 0.0 || (p > 0.0) == (step > 0.0)
  {
  }

  lemma ProductBelow(p: real, step: real)
    requires Abs(p) < 1.0 && step != 0.0
    ensures Abs(p * step) < Abs(step)
  {
    var above, below := 1.0 - p, 1.0 + p;
    ProductSign(above, step);
    ProductSign(below, step);
    assert above * step == step - p * step;
    assert below * step == step + p * step;
  }
}
