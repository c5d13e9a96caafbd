/** Clock offset estimation of hummingbot/connector/time_synchronizer.py: the
    midpoint of a round trip, and the median over a bounded window. Times are
    exact, in milliseconds unless a name says seconds. */
module TimeSynchronizerModule {
  import opened Basics
  import opened Sorting

  const BY_VALUE: Order<real> := (a, b) => a <= b

  const MAXLEN: nat := 5

  /** One request: the local clock before and after, and the server's answer. */
  datatype Exchange = Exchange(before: real, server: real, after: real)

  function Offset(x: Exchange): real { x.server - (x.before + x.after) / 2.0 }

  function RoundTrip(x: Exchange): real { x.after - x.before }

  /** The server read its clock, which is ahead of the local one by truth, at
      some local instant within the request. */
  ghost predicate Honest(x: Exchange, truth: real) {
    exists instant :: x.before <= instant <= x.after && x.server == Plus(instant, truth)
  }

  function Plus(a: real, b: real): real { a + b }

  predicate Near(a: real, truth: real, e: real) { truth - e <= a <= truth + e }

  lemma OffsetErrsByHalfRoundTrip(x: Exchange, truth: real)
    ensures Honest(x, truth) <==> Near(Offset(x), truth, RoundTrip(x) / 2.0)
  {
    if Near(Offset(x), truth, RoundTrip(x) / 2.0) {
      var instant := x.server - truth;
      assert x.server == Plus(instant, truth);
    }
  }

  // ---- the median --------------------------------------------------------

  function Median(s: seq<real>): real
    requires s != []
  {
    var r, n := Sorted(s, BY_VALUE), |s|;
    if n % 2 == 1 then r[n / 2] else (r[n / 2 - 1] + r[n / 2]) / 2.0
  }

  /** How many entries are within e of truth. */
  function CountNear(s: seq<real>, truth: real, e: real): nat {
    if s == [] then 0 else (if Near(s[0], truth, e) then 1 else 0) + CountNear(s[1..], truth, e)
  }

  lemma {:induction false} CountInsert(x: real, s: seq<real>, truth: real, e: real)
    ensures CountNear(Insert(x, s, BY_VALUE), truth, e) == CountNear([x] + s, truth, e)
  {
    if s != [] && x > s[0] {
      CountInsert(x, s[1..], truth, e);
      assert ([x] + s)[1..] == s && ([x] + s[1..])[1..] == s[1..];
    }
  }

  lemma {:induction false} CountSorted(s: seq<real>, truth: real, e: real)
    ensures CountNear(Sorted(s, BY_VALUE), truth, e) == CountNear(s, truth, e)
  {
    if s != [] {
      var rest := Sorted(s[1..], BY_VALUE);
      CountSorted(s[1..], truth, e);
      CountInsert(s[0], rest, truth, e);
      assert ([s[0]] + rest)[1..] == rest;
    }
  }

  lemma {:induction false} CountConcat(a: seq<real>, b: seq<real>, truth: real, e: real)
    ensures CountNear(a + b, truth, e) == CountNear(a, truth, e) + CountNear(b, truth, e)
  {
    if a == [] {
      assert a + b == b;
    } else {
      CountConcat(a[1..], b, truth, e);
      assert (a + b)[1..] == a[1..] + b;
    }
  }

  lemma {:induction false} CountBounds(s: seq<real>, truth: real, e: real)
    ensures CountNear(s, truth, e) <= |s|
    ensures (forall i :: 0 <= i < |s| ==> !Near(s[i], truth, e)) ==> CountNear(s, truth, e) == 0
    ensures (forall i :: 0 <= i < |s| ==> Near(s[i], truth, e)) ==> CountNear(s, truth, e) == |s|
  {
    if s != [] { CountBounds(s[1..], truth, e); }
  }

  lemma CountWithUpperOff(s: seq<real>, k: nat, truth: real, e: real)
    requires k <= |s| && forall i :: k <= i < |s| ==> !Near(s[i], truth, e)
    ensures CountNear(s, truth, e) <= k
  {
    hide CountNear, Near;
    CountConcat(s[..k], s[k..], truth, e);
    assert s[..k] + s[k..] == s;
    CountBounds(s[..k], truth, e);
    CountBounds(s[k..], truth, e);
  }

  lemma CountWithLowerOff(s: seq<real>, k: nat, truth: real, e: real)
    requires k <= |s| && forall i :: 0 <= i < k ==> !Near(s[i], truth, e)
    ensures CountNear(s, truth, e) <= |s| - k
  {
    hide CountNear, Near;
    CountConcat(s[..k], s[k..], truth, e);
    assert s[..k] + s[k..] == s;
    CountBounds(s[..k], truth, e);
    CountBounds(s[k..], truth, e);
  }

  /** In an ascending list with a majority near the truth, an entry in the
      middle cannot be off: all on one side of it would be off too. */
  lemma MiddleIsNear(s: seq<real>, k: nat, truth: real, e: real)
    requires Ascending(s, BY_VALUE) && 2 * CountNear(s, truth, e) > |s|
    requires |s| - 2 <= 2 * k <= |s| && k < |s|
    ensures Near(s[k], truth, e)
  {
    hide CountNear;
    if s[k] > truth + e {
      forall i | k <= i < |s| ensures !Near(s[i], truth, e) {
        assert i == k || BY_VALUE(s[k], s[i]);
      }
      CountWithUpperOff(s, k, truth, e);
    } else if s[k] < truth - e {
      forall i | 0 <= i < k + 1 ensures !Near(s[i], truth, e) {
        assert i == k || BY_VALUE(s[i], s[k]);
      }
      CountWithLowerOff(s, k + 1, truth, e);
    }
  }

  /** A majority within e keeps the median within e, whatever the others are. */
  lemma MedianIsNear(s: seq<real>, truth: real, e: real)
    requires s != [] && 2 * CountNear(s, truth, e) > |s|
    ensures Near(Median(s), truth, e)
  {
    var r, n := Sorted(s, BY_VALUE), |s|;
    SortedIsAscending(s, BY_VALUE);
    CountSorted(s, truth, e);
    hide Sorted, CountNear, Ascending;
    MiddleIsNear(r, n / 2, truth, e);
    if n % 2 == 0 { MiddleIsNear(r, n / 2 - 1, truth, e); }
  }

  /** Half is not a majority: one of two samples may be right and the median
      still be wrong by any amount. */
  lemma HalfIsNotEnough(truth: real, e: real)
    requires e >= 0.0
    ensures var s := [truth, truth + 3.0 * (e + 1.0)]; 2 * CountNear(s, truth, e) == |s| && !Near(Median(s), truth, e)
  {
    var s := [truth, truth + 3.0 * (e + 1.0)];
    assert s[1..] == [s[1]] && [s[1]][1..] == [];
    assert Sorted([s[1]], BY_VALUE) == [s[1]];
    assert CountNear([s[1]], truth, e) == 0;
    assert Sorted(s, BY_VALUE) == s;
  }

  /** Two samples give their mean, one gives itself. */
  lemma MedianOfFew(a: real, b: real)
    ensures Median([a]) == a && Median([a, b]) == (a + b) / 2.0
  {
    assert [a, b][1..] == [b] && [b][1..] == [] && [a][1..] == [];
    assert Sorted([b], BY_VALUE) == [b];
  }

  /** The negated numbers in reverse order. */
  function Mirrored(s: seq<real>): (r: seq<real>)
    ensures |r| == |s| && forall i :: 0 <= i < |s| ==> r[i] == -s[|s| - 1 - i]
  {
    if s == [] then [] else Mirrored(s[1..]) + [-s[0]]
  }

  lemma AscendingTail(s: seq<real>)
    requires s != [] && Ascending(s, BY_VALUE)
    ensures Ascending(s[1..], BY_VALUE) && forall y :: y in s[1..] ==> s[0] <= y
  {
    var tail := s[1..];
    forall i, j | 0 <= i < j < |tail| ensures BY_VALUE(tail[i], tail[j]) { assert BY_VALUE(s[i + 1], s[j + 1]); }
    forall y | y in tail ensures s[0] <= y {
      var i :| 0 <= i < |tail| && tail[i] == y;
      assert BY_VALUE(s[0], s[i + 1]);
    }
  }

  lemma {:induction false} InsertAtEnd(x: real, s: seq<real>)
    requires Ascending(s, BY_VALUE) && forall y :: y in s ==> y <= x
    ensures Insert(x, s, BY_VALUE) == s + [x]
  {
    if s != [] {
      AscendingTail(s);
      if x <= s[0] {
        forall i | 0 <= i < |s| ensures s[i] == x { assert s[i] in s; assert i > 0 ==> s[1..][i - 1] in s[1..]; }
        assert [x] + s == s + [x];
      } else {
        assert forall y :: y in s[1..] ==> y in s;
        InsertAtEnd(x, s[1..]);
      }
    }
  }

  lemma {:induction false} InsertBefore(x: real, s: seq<real>, last: real)
    requires x <= last
    ensures Insert(x, s + [last], BY_VALUE) == Insert(x, s, BY_VALUE) + [last]
  {
    if s != [] {
      assert (s + [last])[1..] == s[1..] + [last];
      InsertBefore(x, s[1..], last);
    }
  }

  lemma MirroredAscends(s: seq<real>, x: real)
    requires Ascending(s, BY_VALUE) && forall z :: z in s ==> x <= z
    ensures Ascending(Mirrored(s), BY_VALUE) && forall y :: y in Mirrored(s) ==> y <= -x
  {
    var m := Mirrored(s);
    forall i, j | 0 <= i < j < |m| ensures BY_VALUE(m[i], m[j]) { assert BY_VALUE(s[|s| - 1 - j], s[|s| - 1 - i]); }
    forall y | y in m ensures y <= -x {
      var i :| 0 <= i < |m| && m[i] == y;
      assert s[|s| - 1 - i] in s;
    }
  }

  lemma MirroredCons(x: real, s: seq<real>)
    ensures Mirrored([x] + s) == Mirrored(s) + [-x]
  {
    assert ([x] + s)[1..] == s;
  }

  lemma InsertCons(x: real, first: real, rest: seq<real>)
    ensures Insert(x, [first] + rest, BY_VALUE)
            == if x <= first then [x] + ([first] + rest) else [first] + Insert(x, rest, BY_VALUE)
  {
    assert ([first] + rest)[1..] == rest;
  }

  lemma NothingMirrored(x: real)
    ensures Insert(-x, Mirrored([]), BY_VALUE) == Mirrored(Insert(x, [], BY_VALUE))
  {
    MirroredCons(x, []);
  }

  lemma {:induction false} MirrorInsert(x: real, s: seq<real>)
    requires Ascending(s, BY_VALUE)
    ensures Insert(-x, Mirrored(s), BY_VALUE) == Mirrored(Insert(x, s, BY_VALUE))
  {
    hide Insert, Mirrored, Ascending;
    if s == [] {
      NothingMirrored(x);
    } else {
      AscendingTail(s);
      var first, tail := s[0], s[1..];
      assert s == [first] + tail;
      InsertCons(x, first, tail);
      if x <= first {
        assert forall z :: z in s ==> z == first || z in tail;
        MirroredAscends(s, x);
        InsertAtEnd(-x, Mirrored(s));
        MirroredCons(x, s);
      } else {
        MirrorInsert(x, tail);
        InsertBefore(-x, Mirrored(tail), -first);
        MirroredCons(first, tail);
        MirroredCons(first, Insert(x, tail, BY_VALUE));
      }
    }
  }

  function Negated(s: seq<real>): (r: seq<real>)
    ensures |r| == |s|
  {
    if s == [] then [] else [-s[0]] + Negated(s[1..])
  }

  lemma {:induction false} SortNegated(s: seq<real>)
    ensures Sorted(Negated(s), BY_VALUE) == Mirrored(Sorted(s, BY_VALUE))
  {
    if s != [] {
      SortNegated(s[1..]);
      SortedIsAscending(s[1..], BY_VALUE);
      MirrorInsert(s[0], Sorted(s[1..], BY_VALUE));
    }
  }

  /** The median looks the same from both ends. */
  lemma MedianNegated(s: seq<real>)
    requires s != []
    ensures Median(Negated(s)) == -Median(s)
  {
    hide Sorted;
    SortNegated(s);
  }

  // ---- runs --------------------------------------------------------------

  /** What can happen between two reads: a request is answered, a request
      fails, the samples are cleared. */
  datatype Op = Answered(x: Exchange) | Failed | Clear

  function Step(window: seq<Exchange>, op: Op): seq<Exchange> {
    match op
    case Answered(x) => Latest(window + [x], MAXLEN)
    case Failed => window
    case Clear => []
  }

  function Run(ops: seq<Op>): seq<Exchange> {
    if ops == [] then [] else Step(Run(ops[..|ops| - 1]), ops[|ops| - 1])
  }

  /** The answers since the last clear. */
  function Answers(ops: seq<Op>): seq<Exchange> {
    if ops == [] then []
    else match ops[|ops| - 1]
      case Answered(x) => Answers(ops[..|ops| - 1]) + [x]
      case Failed => Answers(ops[..|ops| - 1])
      case Clear => []
  }

  function Offsets(window: seq<Exchange>): (r: seq<real>)
    ensures |r| == |window|
  {
    if window == [] then [] else [Offset(window[0])] + Offsets(window[1..])
  }

  function Largest(window: seq<Exchange>): real
    requires window != []
  {
    if |window| == 1 then RoundTrip(window[0])
    else
      var rest := Largest(window[1..]);
      if RoundTrip(window[0]) >= rest then RoundTrip(window[0]) else rest
  }

  lemma {:induction false} RunIsLatest(ops: seq<Op>)
    ensures Run(ops) == Latest(Answers(ops), MAXLEN)
  {
    if ops != [] { RunIsLatest(ops[..|ops| - 1]); }
  }

  lemma {:induction false} HonestAreNear(window: seq<Exchange>, truth: real, e: real)
    requires forall i :: 0 <= i < |window| ==> Honest(window[i], truth) && RoundTrip(window[i]) / 2.0 <= e
    ensures CountNear(Offsets(window), truth, e) == |window|
  {
    if window != [] {
      HonestAreNear(window[1..], truth, e);
      OffsetErrsByHalfRoundTrip(window[0], truth);
    }
  }

  lemma {:induction false} LargestBounds(window: seq<Exchange>, i: nat)
    requires i < |window|
    ensures RoundTrip(window[i]) <= Largest(window)
  {
    if |window| > 1 && i > 0 { LargestBounds(window[1..], i - 1); }
  }

  lemma {:induction false} OffsetsSnoc(window: seq<Exchange>, x: Exchange)
    ensures Offsets(window + [x]) == Offsets(window) + [Offset(x)]
  {
    if window != [] {
      OffsetsSnoc(window[1..], x);
      assert (window + [x])[1..] == window[1..] + [x];
    }
  }

  lemma OffsetsLatest(window: seq<Exchange>, x: Exchange)
    requires |window| <= MAXLEN
    ensures Offsets(Latest(window + [x], MAXLEN)) == Latest(Offsets(window) + [Offset(x)], MAXLEN)
  {
    OffsetsSnoc(window, x);
  }

  /** The offset reported after a run: of the samples, or without any sample
      the difference between the wall clock and the local counter (seconds). */
  function Reported(ops: seq<Op>, wall: real, counter: real): real {
    if Run(ops) == [] then (wall - counter) * 1000.0 else Median(Offsets(Run(ops)))
  }

  /** After any run whose answers are honest, the reported offset errs by at
      most half the longest round trip in the window. */
  lemma ReportErrsByHalfRoundTrip(ops: seq<Op>, truth: real, wall: real, counter: real)
    requires Answers(ops) != []
    requires forall i :: 0 <= i < |Answers(ops)| ==> Honest(Answers(ops)[i], truth)
    ensures Near(Reported(ops, wall, counter), truth, Largest(Latest(Answers(ops), MAXLEN)) / 2.0)
  {
    var window := Run(ops);
    RunIsLatest(ops);
    var e := Largest(window) / 2.0;
    forall i | 0 <= i < |window| ensures Honest(window[i], truth) && RoundTrip(window[i]) / 2.0 <= e {
      LargestBounds(window, i);
    }
    HonestAreNear(window, truth, e);
    MedianIsNear(Offsets(window), truth, e);
  }

  /** More than half of the window within e is enough, honest or not. */
  lemma ReportFollowsMajority(ops: seq<Op>, truth: real, e: real, wall: real, counter: real)
    requires Answers(ops) != []
    requires 2 * CountNear(Offsets(Latest(Answers(ops), MAXLEN)), truth, e) > |Latest(Answers(ops), MAXLEN)|
    ensures Near(Reported(ops, wall, counter), truth, e)
    ensures var now := Now(counter, Reported(ops, wall, counter)) * 1000.0;
            now - e <= Plus(counter * 1000.0, truth) <= now + e
  {
    RunIsLatest(ops);
    MedianIsNear(Offsets(Run(ops)), truth, e);
  }

  /** time(), in seconds. */
  function Now(counter: real, offsetMs: real): real { counter + offsetMs * 0.001 }

  /** Without a sample the reported time is that of the wall clock. */
  lemma NoSamplesIsWallClock(ops: seq<Op>, wall: real, counter: real)
    requires Answers(ops) == []
    ensures Now(counter, Reported(ops, wall, counter)) == wall
  {
    RunIsLatest(ops);
  }

  class TimeSynchronizer {
    var timeOffsetMs: seq<real>
    ghost var history: seq<Op>

    ghost predicate Valid()
      reads this
    {
      timeOffsetMs == Offsets(Run(history))
    }

    constructor ()
      ensures Valid() && history == []
    {
      timeOffsetMs, history := [], [];
    }

    method AddTimeOffsetMsSample(offset: real)
      modifies `timeOffsetMs
      ensures timeOffsetMs == Latest(old(timeOffsetMs) + [offset], MAXLEN)
    {
      timeOffsetMs := timeOffsetMs + [offset];
      if |timeOffsetMs| > MAXLEN { timeOffsetMs := timeOffsetMs[|timeOffsetMs| - MAXLEN..]; }
    }

    method ClearTimeOffsetMsSamples()
      requires Valid()
      modifies this
      ensures Valid() && history == old(history) + [Clear]
    {
      timeOffsetMs, history := [], history + [Clear];
    }

    /** The counter readings are in seconds; without an answer the provider
        raised, which is logged. */
    method UpdateServerTimeOffset(before: real, answer: Option<real>, after: real)
      requires Valid()
      modifies this
      ensures Valid()
      ensures history == old(history) + [if answer.None? then Failed else
                                           Answered(Exchange(before * 1000.0, answer.value, after * 1000.0))]
    {
      if answer.None? {
        history := history + [Failed];
      } else {
        var localBefore, localAfter := before * 1000.0, after * 1000.0;
        var preImage := (localBefore + localAfter) / 2.0;
        AddTimeOffsetMsSample(answer.value - preImage);
        ghost var x := Exchange(localBefore, answer.value, localAfter);
        RunIsLatest(history);
        OffsetsLatest(Run(history), x);
        history := history + [Answered(x)];
        assert history[..|history| - 1] == old(history);
      }
    }

    /** A request only when there is no sample yet. */
    method UpdateServerTimeIfNotInitialized(before: real, answer: Option<real>, after: real)
      requires Valid()
      modifies this
      ensures Valid()
      ensures old(timeOffsetMs) != [] ==> history == old(history)
      ensures old(timeOffsetMs) == [] ==>
                history == old(history) + [if answer.None? then Failed else
                                             Answered(Exchange(before * 1000.0, answer.value, after * 1000.0))]
    {
      if timeOffsetMs == [] { UpdateServerTimeOffset(before, answer, after); }
    }

    method TimeOffsetMs(wall: real, counter: real) returns (offset: real)
      requires Valid()
      ensures offset == Reported(history, wall, counter)
    {
      offset := if timeOffsetMs == [] then (wall - counter) * 1000.0 else Median(timeOffsetMs);
    }
  }
}
