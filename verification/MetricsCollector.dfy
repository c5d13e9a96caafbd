/** The trade volume collector of hummingbot/connector/connector_metrics_collector.py:
    fill events wait, are handed to collection tasks that interleave at every
    awaited rate, and come back when a task fails. */
module MetricsCollector {
  import opened Basics

  datatype Event = Event(id: nat, amount: real, price: real)

  /** What the rate provider answered for one event: first the rate of its
      quote token and, without one, the rate of its base token. */
  datatype Rates = Rates(quote: Option<real>, base: Option<real>)

  function AtQuoteRate(e: Event, rate: real): real { e.amount * e.price * rate }

  function AtBaseRate(e: Event, rate: real): real { e.amount * rate }

  function Worth(e: Event, r: Rates): real {
    if r.quote.Some? then AtQuoteRate(e, r.quote.value)
    else if r.base.Some? then AtBaseRate(e, r.base.value)
    else 0.0
  }

  function TotalWorth(events: seq<Event>, rates: seq<Rates>): real
    requires |rates| <= |events|
  {
    if rates == [] then 0.0
    else
      var n := |rates| - 1;
      TotalWorth(events, rates[..n]) + Worth(events[n], rates[n])
  }

  /** A task that awaits a rate of its next event: of the quote token, or of
      the base token when quoteFailed. */
  datatype Task = Task(events: seq<Event>, rates: seq<Rates>, quoteFailed: bool, total: real)

  datatype Report = Report(events: seq<Event>, rates: seq<Rates>, total: real)

  datatype State = State(waiting: seq<Event>, tasks: seq<Task>, finished: seq<Report>, cancelled: seq<Event>,
                         lastTick: real, fired: seq<real>)

  const START := State([], [], [], [], 0.0, [])

  datatype Op =
    | Register(e: Event)
    | Trigger
    | Tick(now: real)
    | Answer(k: nat, rate: Option<real>)
    | Finish(k: nat)
    | Fail(k: nat)
    | Cancel(k: nat)

  predicate Legal(s: State, op: Op) {
    match op
    case Register(_) => true
    case Trigger => true
    case Tick(_) => true
    case Answer(k, _) => k < |s.tasks| && |s.tasks[k].rates| < |s.tasks[k].events|
    case Finish(k) => k < |s.tasks| && |s.tasks[k].rates| == |s.tasks[k].events|
    case Fail(k) => k < |s.tasks|
    case Cancel(k) => k < |s.tasks|
  }

  function Triggered(s: State): State {
    s.(waiting := [], tasks := s.tasks + [Task(s.waiting, [], false, 0.0)])
  }

  function Answered(t: Task, rate: Option<real>): Task
    requires |t.rates| < |t.events|
  {
    var e := t.events[|t.rates|];
    if t.quoteFailed then
      t.(rates := t.rates + [Rates(None, rate)], quoteFailed := false,
         total := if rate.Some? then t.total + AtBaseRate(e, rate.value) else t.total)
    else if rate.Some? then
      t.(rates := t.rates + [Rates(rate, None)], total := t.total + AtQuoteRate(e, rate.value))
    else
      t.(quoteFailed := true)
  }

  function Without<T>(s: seq<T>, k: nat): seq<T>
    requires k < |s|
  {
    s[..k] + s[k + 1..]
  }

  function Step(s: State, op: Op, interval: real): State
    requires Legal(s, op)
  {
    match op
    case Register(e) => s.(waiting := s.waiting + [e])
    case Trigger => Triggered(s)
    case Tick(now) =>
      if now - s.lastTick >= interval then Triggered(s.(lastTick := now, fired := s.fired + [now])) else s
    case Answer(k, rate) => s.(tasks := s.tasks[k := Answered(s.tasks[k], rate)])
    case Finish(k) =>
      var t := s.tasks[k];
      s.(tasks := Without(s.tasks, k), finished := s.finished + [Report(t.events, t.rates, t.total)])
    case Fail(k) => s.(tasks := Without(s.tasks, k), waiting := s.waiting + s.tasks[k].events)
    case Cancel(k) => s.(tasks := Without(s.tasks, k), cancelled := s.cancelled + s.tasks[k].events)
  }

  /** The totals sent to the server: those of finished tasks that are positive. */
  function Dispatched(finished: seq<Report>): seq<real> {
    if finished == [] then []
    else
      var last := finished[|finished| - 1];
      Dispatched(finished[..|finished| - 1]) + (if last.total > 0.0 then [last.total] else [])
  }

  // ---- conservation ------------------------------------------------------

  function InFlight(tasks: seq<Task>): multiset<Event> {
    if tasks == [] then multiset{} else InFlight(tasks[..|tasks| - 1]) + multiset(tasks[|tasks| - 1].events)
  }

  function Counted(finished: seq<Report>): multiset<Event> {
    if finished == [] then multiset{}
    else Counted(finished[..|finished| - 1]) + multiset(finished[|finished| - 1].events)
  }

  function Held(s: State): multiset<Event> {
    multiset(s.waiting) + InFlight(s.tasks) + Counted(s.finished) + multiset(s.cancelled)
  }

  function New(op: Op): seq<Event> { if op.Register? then [op.e] else [] }

  lemma InFlightSnoc(tasks: seq<Task>, t: Task)
    ensures InFlight(tasks + [t]) == InFlight(tasks) + multiset(t.events)
  {
    assert (tasks + [t])[..|tasks|] == tasks;
  }

  lemma InFlightNone()
    ensures InFlight([]) == multiset{}
  {
  }

  lemma {:induction false} InFlightConcat(a: seq<Task>, b: seq<Task>)
    ensures InFlight(a + b) == InFlight(a) + InFlight(b)
  {
    hide InFlight;
    if b == [] {
      assert a + b == a;
      InFlightNone();
    } else {
      var front, last := b[..|b| - 1], b[|b| - 1];
      InFlightConcat(a, front);
      InFlightSnoc(a + front, last);
      InFlightSnoc(front, last);
      assert front + [last] == b && a + front + [last] == a + b;
    }
  }

  lemma InFlightOne(t: Task)
    ensures InFlight([t]) == multiset(t.events)
  {
    assert [t][..0] == [];
  }

  lemma InFlightSplit(tasks: seq<Task>, k: nat)
    requires k < |tasks|
    ensures InFlight(tasks) == InFlight(Without(tasks, k)) + multiset(tasks[k].events)
  {
    hide InFlight;
    InFlightConcat(tasks[..k], tasks[k + 1..]);
    InFlightOne(tasks[k]);
    InFlightConcat(tasks[..k], [tasks[k]]);
    InFlightConcat(tasks[..k] + [tasks[k]], tasks[k + 1..]);
    assert tasks[..k] + [tasks[k]] + tasks[k + 1..] == tasks;
  }

  lemma InFlightUpdate(tasks: seq<Task>, k: nat, t: Task)
    requires k < |tasks| && t.events == tasks[k].events
    ensures InFlight(tasks[k := t]) == InFlight(tasks)
  {
    hide InFlight;
    InFlightSplit(tasks, k);
    InFlightSplit(tasks[k := t], k);
    assert Without(tasks[k := t], k) == Without(tasks, k);
  }

  lemma CountedSnoc(finished: seq<Report>, r: Report)
    ensures Counted(finished + [r]) == Counted(finished) + multiset(r.events)
  {
    assert (finished + [r])[..|finished|] == finished;
  }

  lemma TriggerConserves(s: State)
    ensures Held(Triggered(s)) == Held(s)
  {
    hide InFlight, Counted;
    InFlightConcat(s.tasks, [Task(s.waiting, [], false, 0.0)]);
    InFlightOne(Task(s.waiting, [], false, 0.0));
  }

  /** A step moves events between waiting, in flight, counted and cancelled;
      only a registration adds one. */
  lemma StepConserves(s: State, op: Op, interval: real)
    requires Legal(s, op)
    ensures Held(Step(s, op, interval)) == Held(s) + multiset(New(op))
  {
    hide InFlight, Counted, Without;
    match op
    case Register(e) =>
    case Trigger => TriggerConserves(s);
    case Tick(now) => TriggerConserves(s.(lastTick := now, fired := s.fired + [now]));
    case Answer(k, rate) => InFlightUpdate(s.tasks, k, Answered(s.tasks[k], rate));
    case Finish(k) =>
      var t := s.tasks[k];
      InFlightSplit(s.tasks, k);
      CountedSnoc(s.finished, Report(t.events, t.rates, t.total));
    case Fail(k) => InFlightSplit(s.tasks, k);
    case Cancel(k) => InFlightSplit(s.tasks, k);
  }

  // ---- runs --------------------------------------------------------------

  predicate LegalRun(s: State, ops: seq<Op>, interval: real)
    decreases |ops|
  {
    ops == [] || (Legal(s, ops[0]) && LegalRun(Step(s, ops[0], interval), ops[1..], interval))
  }

  function Exec(s: State, ops: seq<Op>, interval: real): State
    requires LegalRun(s, ops, interval)
    decreases |ops|
  {
    if ops == [] then s else Exec(Step(s, ops[0], interval), ops[1..], interval)
  }

  function Registered(ops: seq<Op>): seq<Event> {
    if ops == [] then [] else New(ops[0]) + Registered(ops[1..])
  }

  /** In every interleaving the registered events are exactly the waiting, the
      in-flight, the counted and the cancelled ones. */
  lemma {:induction false} EventsConserved(s: State, ops: seq<Op>, interval: real)
    requires LegalRun(s, ops, interval)
    ensures Held(Exec(s, ops, interval)) == Held(s) + multiset(Registered(ops))
    decreases |ops|
  {
    if ops != [] {
      hide Held, Step, New;
      StepConserves(s, ops[0], interval);
      EventsConserved(Step(s, ops[0], interval), ops[1..], interval);
    }
  }

  lemma {:induction false} CountedHolds(finished: seq<Report>, i: nat)
    requires i < |finished|
    ensures multiset(finished[i].events) <= Counted(finished)
  {
    if i < |finished| - 1 { CountedHolds(finished[..|finished| - 1], i); }
  }

  lemma {:induction false} CountedHoldsBoth(finished: seq<Report>, i: nat, j: nat)
    requires i < j < |finished|
    ensures multiset(finished[i].events) + multiset(finished[j].events) <= Counted(finished)
  {
    var front := finished[..|finished| - 1];
    if j < |finished| - 1 { CountedHoldsBoth(front, i, j); } else { CountedHolds(front, i); }
  }

  /** An event registered once is counted in at most one finished collection,
      there only once, and then it neither waits nor is in flight. */
  lemma CountedAtMostOnce(ops: seq<Op>, interval: real, e: Event, i: nat)
    requires LegalRun(START, ops, interval) && multiset(Registered(ops))[e] == 1
    requires i < |Exec(START, ops, interval).finished| && e in Exec(START, ops, interval).finished[i].events
    ensures var s := Exec(START, ops, interval);
            && multiset(s.finished[i].events)[e] == 1
            && (forall j :: 0 <= j < |s.finished| && j != i ==> e !in s.finished[j].events)
            && e !in s.waiting && e !in InFlight(s.tasks) && e !in s.cancelled
  {
    hide Exec, LegalRun, Registered, InFlight;
    var s := Exec(START, ops, interval);
    EventsConserved(START, ops, interval);
    StartIsEmpty();
    CountedHolds(s.finished, i);
    assert Held(s)[e] == 1;
    assert multiset(s.finished[i].events)[e] >= 1;
    forall j | 0 <= j < |s.finished| && j != i ensures e !in s.finished[j].events {
      CountedHoldsBoth(s.finished, if i < j then i else j, if i < j then j else i);
    }
  }

  lemma StartIsEmpty()
    ensures Held(START) == multiset{}
  {
  }

  /** With nothing in flight and no cancellation, every registered event is
      counted or still waiting. */
  lemma IdleMeansCounted(ops: seq<Op>, interval: real)
    requires LegalRun(START, ops, interval)
    requires Exec(START, ops, interval).tasks == [] && Exec(START, ops, interval).cancelled == []
    ensures var s := Exec(START, ops, interval);
            multiset(Registered(ops)) == multiset(s.waiting) + Counted(s.finished)
  {
    hide Exec, LegalRun, Registered;
    EventsConserved(START, ops, interval);
    StartIsEmpty();
    var s := Exec(START, ops, interval);
    assert multiset(s.cancelled) == multiset{} && InFlight(s.tasks) == multiset{};
    assert Held(s) == multiset(s.waiting) + Counted(s.finished);
  }

  // ---- totals ------------------------------------------------------------

  predicate Exact(events: seq<Event>, rates: seq<Rates>, total: real) {
    |rates| <= |events| && total == TotalWorth(events, rates)
  }

  predicate Sound(s: State) {
    && (forall t :: t in s.tasks ==> Exact(t.events, t.rates, t.total) && (t.quoteFailed ==> |t.rates| < |t.events|))
    && (forall r :: r in s.finished ==> Exact(r.events, r.rates, r.total) && |r.rates| == |r.events|)
  }

  lemma AnsweredExact(t: Task, rate: Option<real>)
    requires |t.rates| < |t.events| && Exact(t.events, t.rates, t.total)
    ensures var u := Answered(t, rate); Exact(u.events, u.rates, u.total) && (u.quoteFailed ==> |u.rates| < |u.events|)
  {
    var u := Answered(t, rate);
    if u.rates != t.rates { assert u.rates[..|t.rates|] == t.rates; }
  }

  lemma StepSound(s: State, op: Op, interval: real)
    requires Legal(s, op) && Sound(s)
    ensures Sound(Step(s, op, interval))
  {
    hide Exact, Answered;
    var s' := Step(s, op, interval);
    FreshExact(s.waiting);
    match op
    case Answer(k, rate) =>
      AnsweredExact(s.tasks[k], rate);
      forall t | t in s'.tasks ensures t in s.tasks || t == Answered(s.tasks[k], rate) { }
    case Finish(k) =>
      forall r | r in s'.finished ensures r in s.finished || r == s'.finished[|s.finished|] { }
      assert s.tasks[k] in s.tasks;
    case _ =>
  }

  lemma FreshExact(events: seq<Event>)
    ensures Exact(events, [], 0.0)
  {
  }

  lemma {:induction false} RunSound(s: State, ops: seq<Op>, interval: real)
    requires LegalRun(s, ops, interval) && Sound(s)
    ensures Sound(Exec(s, ops, interval))
    decreases |ops|
  {
    if ops != [] {
      hide Sound, Step;
      StepSound(s, ops[0], interval);
      RunSound(Step(s, ops[0], interval), ops[1..], interval);
    }
  }

  lemma {:induction false} DispatchedIs(finished: seq<Report>, v: real)
    ensures v in Dispatched(finished) <==> exists r :: r in finished && r.total == v && v > 0.0
  {
    if finished != [] {
      var front, last := finished[..|finished| - 1], finished[|finished| - 1];
      DispatchedIs(front, v);
      forall r | r in finished ensures r in front || r == last { }
      assert last in finished;
    }
  }

  /** However the tasks interleave, what is sent is a positive total of some
      events each valued at the rates the provider gave for it. */
  lemma DispatchedIsWorth(ops: seq<Op>, interval: real, v: real)
    requires LegalRun(START, ops, interval) && v in Dispatched(Exec(START, ops, interval).finished)
    ensures v > 0.0
    ensures exists r :: && r in Exec(START, ops, interval).finished && |r.rates| == |r.events|
                        && v == TotalWorth(r.events, r.rates)
  {
    hide Exec, LegalRun, TotalWorth;
    RunSound(START, ops, interval);
    DispatchedIs(Exec(START, ops, interval).finished, v);
  }

  /** What one fill is worth: its quote volume at the rate of the quote token,
      whatever the base rate; without that its amount at the rate of the base
      token; else nothing. A base rate of price times q is a quote rate of q. */
  lemma WorthIs(e: Event, q: real, base: Option<real>)
    ensures Worth(e, Rates(Some(q), base)) == q * (e.amount * e.price)
    ensures Worth(e, Rates(Some(q), base)) == Worth(e, Rates(None, Some(e.price * q)))
    ensures Worth(e, Rates(Some(1.0), base)) == e.amount * e.price
    ensures Worth(e, Rates(None, Some(1.0))) == e.amount
    ensures Worth(e, Rates(None, Some(q))) == q * e.amount
    ensures Worth(e, Rates(None, None)) == 0.0
  {
    assert e.amount * (e.price * q) == q * (e.amount * e.price);
  }

  /** One fill of 1 at 20000 in the valuation token is worth 20000. */
  lemma OneFill(id: nat)
    ensures TotalWorth([Event(id, 1.0, 20000.0)], [Rates(Some(1.0), None)]) == 20000.0
  {
    assert [Rates(Some(1.0), None)][..0] == [];
    WorthIs(Event(id, 1.0, 20000.0), 1.0, None);
  }

  /** Amount times price, over all events. */
  function QuoteVolume(events: seq<Event>): real
  {
    if events == [] then 0.0
    else QuoteVolume(events[..|events| - 1]) + events[|events| - 1].amount * events[|events| - 1].price
  }

  lemma {:induction false} TotalAtOneRate(events: seq<Event>, rates: seq<Rates>, q: real)
    requires |rates| == |events| && forall r :: r in rates ==> r.quote == Some(q)
    ensures TotalWorth(events, rates) == q * QuoteVolume(events)
  {
    if events != [] {
      var n := |events| - 1;
      TotalAtOneRate(events[..n], rates[..n], q);
      TotalOfFront(events, rates[..n]);
      assert rates[n] in rates;
      WorthIs(events[n], q, rates[n].base);
      var volume, one := QuoteVolume(events[..n]), events[n].amount * events[n].price;
      assert q * (volume + one) == q * volume + q * one;
      hide QuoteVolume, Worth;
    } else {
      assert q * 0.0 == 0.0;
    }
  }

  lemma {:induction false} TotalOfFront(events: seq<Event>, rates: seq<Rates>)
    requires |rates| < |events|
    ensures TotalWorth(events, rates) == TotalWorth(events[..|events| - 1], rates)
  {
    hide Worth;
    if rates != [] {
      var n := |rates| - 1;
      TotalOfFront(events, rates[..n]);
    }
  }

  /** In every run a finished collection whose events all had the quote rate q
      reports q times their quote volume. */
  lemma ReportAtOneRate(ops: seq<Op>, interval: real, r: Report, q: real)
    requires LegalRun(START, ops, interval) && r in Exec(START, ops, interval).finished
    requires forall x :: x in r.rates ==> x.quote == Some(q)
    ensures r.total == q * QuoteVolume(r.events)
  {
    hide Exec, LegalRun, TotalWorth, QuoteVolume;
    RunSound(START, ops, interval);
    TotalAtOneRate(r.events, r.rates, q);
  }

  // ---- ticks -------------------------------------------------------------

  /** Collections started by ticks are at least an interval apart, the first
      counted from zero. */
  predicate Spaced(s: State, interval: real) {
    && s.lastTick == (if s.fired == [] then 0.0 else s.fired[|s.fired| - 1])
    && (s.fired != [] ==> s.fired[0] >= interval)
    && forall i :: 0 < i < |s.fired| ==> s.fired[i] - s.fired[i - 1] >= interval
  }

  /** A tick that comes an interval or more after the last one to collect hands
      everything that waits to one new task; an earlier one changes nothing. */
  lemma TickCollects(s: State, now: real, interval: real)
    ensures var s' := Step(s, Tick(now), interval);
      if now < s.lastTick + interval then s' == s
      else
        && s'.waiting == [] && s'.lastTick == now && s'.fired == s.fired + [now]
        && |s'.tasks| == |s.tasks| + 1 && s'.tasks[..|s.tasks|] == s.tasks
        && s'.tasks[|s.tasks|].events == s.waiting && s'.tasks[|s.tasks|].rates == []
        && s'.finished == s.finished && s'.cancelled == s.cancelled
  {
  }

  /** So after every run that ends in a tick either nothing waits, or a tick has
      collected less than an interval ago. */
  lemma NothingWaitsLong(ops: seq<Op>, now: real, interval: real)
    requires LegalRun(START, ops + [Tick(now)], interval)
    ensures var s := Exec(START, ops + [Tick(now)], interval);
      s.waiting == [] || (now < s.lastTick + interval)
  {
    RunSplits(START, ops, Tick(now), interval);
    TickCollects(Exec(START, ops, interval), now, interval);
  }

  lemma {:induction false} RunSplits(s: State, front: seq<Op>, op: Op, interval: real)
    requires LegalRun(s, front + [op], interval)
    ensures LegalRun(s, front, interval) && Legal(Exec(s, front, interval), op)
    ensures Exec(s, front + [op], interval) == Step(Exec(s, front, interval), op, interval)
    decreases |front|
  {
    hide Step, Legal;
    var ops := front + [op];
    if front == [] {
      assert ops[0] == op && ops[1..] == [];
    } else {
      assert ops[0] == front[0] && ops[1..] == front[1..] + [op];
      RunSplits(Step(s, front[0], interval), front[1..], op, interval);
    }
  }

  lemma {:induction false} TicksSpaced(s: State, ops: seq<Op>, interval: real)
    requires LegalRun(s, ops, interval) && Spaced(s, interval)
    ensures Spaced(Exec(s, ops, interval), interval)
    decreases |ops|
  {
    if ops != [] {
      assert Spaced(Step(s, ops[0], interval), interval);
      hide Step, Spaced;
      TicksSpaced(Step(s, ops[0], interval), ops[1..], interval);
    }
  }

  lemma SoundWithout(s: State, s': State)
    requires Sound(s) && s'.tasks == s.tasks && s'.finished == s.finished
    ensures Sound(s')
  {
    hide Exact;
  }

  lemma SoundWith(s: State, s': State, r: Report)
    requires Sound(s) && s'.tasks == s.tasks && s'.finished == s.finished + [r]
    requires Exact(r.events, r.rates, r.total) && |r.rates| == |r.events|
    ensures Sound(s')
  {
    hide Exact;
  }

  lemma DispatchedSnoc(finished: seq<Report>, r: Report)
    ensures Dispatched(finished + [r]) == Dispatched(finished) + (if r.total > 0.0 then [r.total] else [])
  {
    assert (finished + [r])[..|finished|] == finished;
  }

  // ---- a collection without interruption ---------------------------------

  /** The provider is asked for the base rate only without a quote rate. */
  predicate Asked(r: Rates) { r.quote.Some? ==> r.base.None? }

  /** The resumptions of task k in which the provider gives these rates. */
  function Script(k: nat, rates: seq<Rates>): seq<Op> {
    if rates == [] then [] else OneEvent(k, rates[0]) + Script(k, rates[1..])
  }

  function OneEvent(k: nat, r: Rates): seq<Op> {
    if r.quote.Some? then [Answer(k, r.quote)] else [Answer(k, None), Answer(k, r.base)]
  }

  /** From s to s' task k has got the rates and nothing else has changed. */
  predicate Advanced(s: State, s': State, k: nat, rates: seq<Rates>) {
    && k < |s.tasks| == |s'.tasks| && s' == s.(tasks := s.tasks[k := s'.tasks[k]])
    && s'.tasks[k].events == s.tasks[k].events && s'.tasks[k].rates == s.tasks[k].rates + rates
    && !s'.tasks[k].quoteFailed
  }

  lemma OneEventAdvances(s: State, k: nat, r: Rates, interval: real)
    requires k < |s.tasks| && |s.tasks[k].rates| < |s.tasks[k].events| && !s.tasks[k].quoteFailed && Asked(r)
    ensures LegalRun(s, OneEvent(k, r), interval) && Advanced(s, Exec(s, OneEvent(k, r), interval), k, [r])
  {
    hide AtQuoteRate, AtBaseRate;
    var ops, s1 := OneEvent(k, r), Step(s, OneEvent(k, r)[0], interval);
    assert LegalRun(s1, [], interval);
    assert [Answer(k, r.base)][1..] == [];
    assert ops[1..] == if r.quote.Some? then [] else [Answer(k, r.base)];
    if r.quote.None? {
      var s2 := Step(s1, ops[1], interval);
      assert s2.tasks == s.tasks[k := s2.tasks[k]];
      assert s2.tasks[k].rates == s.tasks[k].rates + [r];
      assert LegalRun(s2, [], interval) && Exec(s1, ops[1..], interval) == s2;
    } else {
      assert s1.tasks[k].rates == s.tasks[k].rates + [r];
    }
  }

  lemma {:induction false} ExecConcat(s: State, a: seq<Op>, b: seq<Op>, interval: real)
    requires LegalRun(s, a, interval) && LegalRun(Exec(s, a, interval), b, interval)
    ensures LegalRun(s, a + b, interval) && Exec(s, a + b, interval) == Exec(Exec(s, a, interval), b, interval)
    decreases |a|
  {
    if a == [] {
      assert a + b == b;
    } else {
      hide Step, Legal;
      ExecConcat(Step(s, a[0], interval), a[1..], b, interval);
      assert (a + b)[1..] == a[1..] + b;
    }
  }

  lemma AdvancedTwice(s: State, s1: State, s2: State, k: nat, r: Rates, rates: seq<Rates>)
    requires rates != [] && rates[0] == r && Advanced(s, s1, k, [r]) && Advanced(s1, s2, k, rates[1..])
    ensures Advanced(s, s2, k, rates)
  {
    assert [r] + rates[1..] == rates;
    assert s2.tasks == s.tasks[k := s2.tasks[k]];
  }

  lemma {:induction false} ScriptAdvances(s: State, k: nat, rates: seq<Rates>, interval: real)
    requires k < |s.tasks| && |s.tasks[k].rates| + |rates| <= |s.tasks[k].events| && !s.tasks[k].quoteFailed
    requires forall r :: r in rates ==> Asked(r)
    ensures LegalRun(s, Script(k, rates), interval) && Advanced(s, Exec(s, Script(k, rates), interval), k, rates)
    decreases |rates|
  {
    if rates == [] {
      assert s.tasks == s.tasks[k := s.tasks[k]];
    } else {
      hide Exec, LegalRun, OneEvent, Asked;
      OneEventAdvances(s, k, rates[0], interval);
      var s1 := Exec(s, OneEvent(k, rates[0]), interval);
      ScriptAdvances(s1, k, rates[1..], interval);
      ExecConcat(s, OneEvent(k, rates[0]), Script(k, rates[1..]), interval);
      AdvancedTwice(s, s1, Exec(s1, Script(k, rates[1..]), interval), k, rates[0], rates);
    }
  }

  /** A fresh task that is not interrupted reports the worth of all its events,
      as the loop of the collector does. */
  lemma UninterruptedCollection(s: State, k: nat, rates: seq<Rates>, interval: real)
    requires Sound(s) && k < |s.tasks| && s.tasks[k].rates == [] && !s.tasks[k].quoteFailed
    requires |rates| == |s.tasks[k].events| && forall r :: r in rates ==> Asked(r)
    ensures LegalRun(s, Script(k, rates) + [Finish(k)], interval)
    ensures var events := s.tasks[k].events;
            Exec(s, Script(k, rates) + [Finish(k)], interval)
            == s.(tasks := Without(s.tasks, k), finished := s.finished + [Report(events, rates, TotalWorth(events, rates))])
  {
    hide Sound, Exact, Script, TotalWorth, Without, LegalRun, Exec, Step, Asked, Advanced;
    ScriptAdvances(s, k, rates, interval);
    RunSound(s, Script(k, rates), interval);
    var s1 := Exec(s, Script(k, rates), interval);
    FinishAdvanced(s, s1, k, rates, interval);
    FinishRun(s1, k, interval);
    ExecConcat(s, Script(k, rates), [Finish(k)], interval);
  }

  lemma TaskExact(s: State, k: nat)
    requires Sound(s) && k < |s.tasks|
    ensures Exact(s.tasks[k].events, s.tasks[k].rates, s.tasks[k].total)
  {
    hide Exact;
    assert s.tasks[k] in s.tasks;
  }

  lemma FinishAdvanced(s: State, s1: State, k: nat, rates: seq<Rates>, interval: real)
    requires Advanced(s, s1, k, rates) && Sound(s1)
    requires s.tasks[k].rates == [] && |rates| == |s.tasks[k].events|
    ensures Legal(s1, Finish(k))
    ensures var events := s.tasks[k].events;
            Step(s1, Finish(k), interval)
            == s.(tasks := Without(s.tasks, k), finished := s.finished + [Report(events, rates, TotalWorth(events, rates))])
  {
    hide TotalWorth;
    assert [] + rates == rates;
    TaskExact(s1, k);
    hide Sound;
    assert Without(s1.tasks, k) == Without(s.tasks, k);
  }

  lemma FinishRun(s: State, k: nat, interval: real)
    requires Legal(s, Finish(k))
    ensures LegalRun(s, [Finish(k)], interval) && Exec(s, [Finish(k)], interval) == Step(s, Finish(k), interval)
  {
    hide Step;
    assert [Finish(k)][1..] == [];
  }

  // ---- the collector -----------------------------------------------------

  class TradeVolumeMetricCollector {
    const activationInterval: real
    var collectedEvents: seq<Event>
    var lastProcessTickTimestamp: real
    var tasks: seq<Task>
    var requests: seq<real>
    ghost var finished: seq<Report>
    ghost var cancelled: seq<Event>
    ghost var fired: seq<real>

    ghost function View(): State
      reads this
    {
      State(collectedEvents, tasks, finished, cancelled, lastProcessTickTimestamp, fired)
    }

    /** What was sent is what the finished collections dispatch. */
    ghost predicate Valid()
      reads this
    {
      requests == Dispatched(finished) && Sound(View())
    }

    constructor (activationInterval: real)
      ensures Valid() && View() == START && this.activationInterval == activationInterval
    {
      this.activationInterval := activationInterval;
      collectedEvents, tasks, requests, lastProcessTickTimestamp := [], [], [], 0.0;
      finished, cancelled, fired := [], [], [];
    }

    method RegisterFillEvent(e: Event)
      requires Valid()
      modifies this
      ensures Valid() && View() == Step(old(View()), Register(e), activationInterval)
    {
      collectedEvents := collectedEvents + [e];
    }

    method TriggerMetricsCollectionProcess()
      requires Valid()
      modifies this
      ensures Valid() && View() == Step(old(View()), Trigger, activationInterval)
    {
      ghost var before := View();
      var eventsToProcess := collectedEvents;
      collectedEvents := [];
      tasks := tasks + [Task(eventsToProcess, [], false, 0.0)];
      StepSound(before, Trigger, activationInterval);
    }

    method ProcessTick(timestamp: real)
      requires Valid()
      modifies this
      ensures Valid() && View() == Step(old(View()), Tick(timestamp), activationInterval)
    {
      var inactivityTime := timestamp - lastProcessTickTimestamp;
      if inactivityTime >= activationInterval {
        lastProcessTickTimestamp, fired := timestamp, fired + [timestamp];
        TriggerMetricsCollectionProcess();
      }
    }

    /** A task goes on with the rate it awaited. */
    method Resume(k: nat, rate: Option<real>)
      requires Valid() && Legal(View(), Answer(k, rate))
      modifies this
      ensures Valid() && View() == Step(old(View()), Answer(k, rate), activationInterval)
    {
      hide Sound, Dispatched, AtQuoteRate, AtBaseRate;
      ghost var before := View();
      var task := tasks[k];
      var fillEvent := task.events[|task.rates|];
      if task.quoteFailed {
        var total := task.total;
        if rate.Some? { total := total + AtBaseRate(fillEvent, rate.value); }
        task := Task(task.events, task.rates + [Rates(None, rate)], false, total);
      } else if rate.Some? {
        task := task.(rates := task.rates + [Rates(rate, None)],
                      total := task.total + AtQuoteRate(fillEvent, rate.value));
      } else {
        task := task.(quoteFailed := true);
      }
      tasks := tasks[k := task];
      StepSound(before, Answer(k, rate), activationInterval);
    }

    /** The end of a collection: a positive total is dispatched. */
    method Complete(k: nat)
      requires Valid() && Legal(View(), Finish(k))
      modifies this
      ensures Valid() && View() == Step(old(View()), Finish(k), activationInterval)
    {
      hide Sound, Dispatched;
      ghost var before := View();
      var task := tasks[k];
      tasks := tasks[..k] + tasks[k + 1..];
      if task.total > 0.0 { requests := requests + [task.total]; }
      ghost var report := Report(task.events, task.rates, task.total);
      DispatchedSnoc(finished, report);
      finished := finished + [report];
      StepSound(before, Finish(k), activationInterval);
    }

    /** An exception anywhere in the collection puts its events back. */
    method PutBack(k: nat)
      requires Valid() && Legal(View(), Fail(k))
      modifies this
      ensures Valid() && View() == Step(old(View()), Fail(k), activationInterval)
    {
      ghost var before := View();
      collectedEvents := collectedEvents + tasks[k].events;
      tasks := tasks[..k] + tasks[k + 1..];
      StepSound(before, Fail(k), activationInterval);
    }

    /** One collection whose rates arrive without another step between them:
        rates[i] are the answers for event i, None where the provider raises. */
    method CollectMetrics(events: seq<Event>, rates: seq<Option<Rates>>)
      requires Valid() && |rates| == |events|
      modifies this
      ensures Valid() && tasks == old(tasks) && lastProcessTickTimestamp == old(lastProcessTickTimestamp)
      ensures cancelled == old(cancelled) && fired == old(fired)
      ensures None in rates ==>
                collectedEvents == old(collectedEvents) + events && finished == old(finished) && requests == old(requests)
      ensures None !in rates ==>
                && collectedEvents == old(collectedEvents)
                && finished == old(finished) + [Report(events, Given(rates), TotalWorth(events, Given(rates)))]
    {
      hide Sound, Dispatched, AtQuoteRate, AtBaseRate, TotalWorth, Given;
      ghost var before := View();
      var totalVolume := 0.0;
      NothingWorth(events);
      for i := 0 to |events|
        invariant View() == before && requests == old(requests)
        invariant None !in rates[..i] && totalVolume == TotalWorth(events, Given(rates[..i]))
      {
        if rates[i].None? {
          collectedEvents := collectedEvents + events;
          SoundWithout(before, View());
          return;
        }
        var fillEvent, answer := events[i], rates[i].value;
        assert rates[..i + 1] == rates[..i] + [rates[i]];
        GivenSnoc(rates[..i], answer);
        WorthSnoc(events, Given(rates[..i]), answer);
        if answer.quote.Some? {
          totalVolume := totalVolume + AtQuoteRate(fillEvent, answer.quote.value);
        } else if answer.base.Some? {
          totalVolume := totalVolume + AtBaseRate(fillEvent, answer.base.value);
        }
      }
      assert rates[..|events|] == rates;
      if totalVolume > 0.0 { requests := requests + [totalVolume]; }
      ghost var report := Report(events, Given(rates), totalVolume);
      DispatchedSnoc(finished, report);
      finished := finished + [report];
      SoundWith(before, View(), report);
    }
  }

  function Given(rates: seq<Option<Rates>>): (r: seq<Rates>)
    requires None !in rates
    ensures |r| == |rates|
  {
    if rates == [] then [] else Given(rates[..|rates| - 1]) + [rates[|rates| - 1].value]
  }

  lemma NothingWorth(events: seq<Event>)
    ensures TotalWorth(events, Given([])) == 0.0
  {
  }

  lemma WorthSnoc(events: seq<Event>, rates: seq<Rates>, r: Rates)
    requires |rates| < |events|
    ensures TotalWorth(events, rates + [r]) == TotalWorth(events, rates) + Worth(events[|rates|], r)
  {
    assert (rates + [r])[..|rates|] == rates;
  }

  lemma GivenSnoc(rates: seq<Option<Rates>>, r: Rates)
    requires None !in rates
    ensures None !in rates + [Some(r)] && Given(rates + [Some(r)]) == Given(rates) + [r]
  {
    assert (rates + [Some(r)])[..|rates|] == rates;
  }
}
