/** The application warnings of hummingbot/client/command/status_command.py:
    expiry from the old end, and the round-robin listing by module. */
module Warnings {
  import opened Basics

  datatype Warning = Warning(timestamp: real, logger: string, message: string)

  type Warnings = seq<Warning>

  // ---- expiry ------------------------------------------------------------

  function DropExpired(ws: Warnings, threshold: real): Warnings {
    if ws != [] && ws[0].timestamp < threshold then DropExpired(ws[1..], threshold) else ws
  }

  function Fresh(ws: Warnings, threshold: real): Warnings {
    if ws == [] then []
    else (if ws[0].timestamp < threshold then [] else [ws[0]]) + Fresh(ws[1..], threshold)
  }

  /** No expired warning was queued behind one that is still fresh. */
  predicate ExpiredComeFirst(ws: Warnings, threshold: real) {
    forall i, j :: 0 <= i < j < |ws| && ws[j].timestamp < threshold ==> ws[i].timestamp < threshold
  }

  lemma {:induction false} FreshOfExpiredMember(ws: Warnings, threshold: real, j: nat)
    requires j < |ws| && ws[j].timestamp < threshold
    ensures |Fresh(ws, threshold)| < |ws|
  {
    FreshIsShorter(ws[1..], threshold);
    if j > 0 { FreshOfExpiredMember(ws[1..], threshold, j - 1); }
  }

  lemma FreshIsShorter(ws: Warnings, threshold: real)
    ensures |Fresh(ws, threshold)| <= |ws|
  {
  }

  /** Popping from the old end removes all the expired warnings, and nothing
      else, exactly when none of them hides behind a fresh one. */
  lemma {:induction false} ExpiryIsExactIff(ws: Warnings, threshold: real)
    ensures DropExpired(ws, threshold) == Fresh(ws, threshold) <==> ExpiredComeFirst(ws, threshold)
  {
    if ws == [] {
    } else if ws[0].timestamp < threshold {
      ExpiryIsExactIff(ws[1..], threshold);
      var rest := ws[1..];
      if ExpiredComeFirst(rest, threshold) {
        forall i, j | 0 <= i < j < |ws| && ws[j].timestamp < threshold ensures ws[i].timestamp < threshold {
          if i > 0 { assert rest[j - 1] == ws[j] && rest[i - 1] == ws[i]; }
        }
      } else {
        var i, j :| 0 <= i < j < |rest| && rest[j].timestamp < threshold && rest[i].timestamp >= threshold;
        assert ws[j + 1] == rest[j] && ws[i + 1] == rest[i];
      }
    } else if ExpiredComeFirst(ws, threshold) {
      forall j | 0 <= j < |ws| ensures ws[j].timestamp >= threshold { }
      AllFresh(ws, threshold);
    } else {
      var i, j :| 0 <= i < j < |ws| && ws[j].timestamp < threshold && ws[i].timestamp >= threshold;
      FreshOfExpiredMember(ws, threshold, j);
    }
  }

  lemma AllFresh(ws: Warnings, threshold: real)
    requires forall j :: 0 <= j < |ws| ==> ws[j].timestamp >= threshold
    ensures Fresh(ws, threshold) == ws
  {
  }

  // ---- the listing, round by round ---------------------------------------

  function NewestFirst(ws: Warnings): (r: Warnings)
    ensures |r| == |ws| && forall i :: 0 <= i < |ws| ==> r[i] == ws[|ws| - 1 - i]
  {
    seq(|ws|, i requires 0 <= i < |ws| => ws[|ws| - 1 - i])
  }

  /** The warnings of one module, in the order of the list. */
  function Of(ws: Warnings, m: string): Warnings {
    if ws == [] then []
    else Of(ws[..|ws| - 1], m) + (if ws[|ws| - 1].logger == m then [ws[|ws| - 1]] else [])
  }

  /** The modules in the order in which they first occur. */
  function Modules(ws: Warnings): seq<string> {
    if ws == [] then []
    else
      var ms := Modules(ws[..|ws| - 1]);
      if ws[|ws| - 1].logger in ms then ms else ms + [ws[|ws| - 1].logger]
  }

  predicate Distinct(ms: seq<string>) {
    forall i, j :: 0 <= i < j < |ms| ==> ms[i] != ms[j]
  }

  ghost predicate Cover(ms: seq<string>, ws: Warnings) {
    forall w :: w in ws ==> w.logger in ms
  }

  /** What module m has to say in round r: its r-th warning, if it has one. */
  function Turn(ws: Warnings, m: string, r: nat): Warnings {
    if r < |Of(ws, m)| then [Of(ws, m)[r]] else []
  }

  /** The turns of the modules of ms, in order. */
  function Round(ws: Warnings, ms: seq<string>, r: nat): Warnings {
    if ms == [] then [] else Round(ws, ms[..|ms| - 1], r) + Turn(ws, ms[|ms| - 1], r)
  }

  /** Rounds 0 to r - 1 in a row. */
  function Rounds(ws: Warnings, ms: seq<string>, r: nat): Warnings {
    if r == 0 then [] else Rounds(ws, ms, r - 1) + Round(ws, ms, r - 1)
  }

  function Listing(ws: Warnings): Warnings { Rounds(ws, Modules(ws), |ws|) }

  function Upto<T>(s: seq<T>, n: int): seq<T> {
    if n <= 0 then [] else if n < |s| then s[..n] else s
  }

  function From<T>(s: seq<T>, n: nat): seq<T> {
    if n <= |s| then s[n..] else []
  }

  /** The modules of ms that still have a warning after r rounds. */
  function Live(ws: Warnings, ms: seq<string>, r: nat): seq<string> {
    if ms == [] then []
    else Live(ws, ms[..|ms| - 1], r) + (if r < |Of(ws, ms[|ms| - 1])| then [ms[|ms| - 1]] else [])
  }

  /** What the modules of ms have left after r rounds. */
  function Rest(ws: Warnings, ms: seq<string>, r: nat): Warnings {
    if ms == [] then [] else Rest(ws, ms[..|ms| - 1], r) + From(Of(ws, ms[|ms| - 1]), r)
  }

  function Among(ws: Warnings, ms: seq<string>): Warnings {
    if ws == [] then []
    else Among(ws[..|ws| - 1], ms) + (if ws[|ws| - 1].logger in ms then [ws[|ws| - 1]] else [])
  }

  lemma {:induction false} ModulesDistinct(ws: Warnings)
    ensures Distinct(Modules(ws))
  {
    if ws != [] { ModulesDistinct(ws[..|ws| - 1]); }
  }

  lemma {:induction false} ModulesCover(ws: Warnings)
    ensures Cover(Modules(ws), ws)
  {
    if ws != [] {
      ModulesCover(ws[..|ws| - 1]);
      forall w | w in ws ensures w.logger in Modules(ws) {
        assert w in ws[..|ws| - 1] || w == ws[|ws| - 1];
      }
    }
  }

  lemma {:induction false} ModulesSpeak(ws: Warnings, m: string)
    ensures m in Modules(ws) <==> Of(ws, m) != []
  {
    if ws != [] { ModulesSpeak(ws[..|ws| - 1], m); }
  }

  lemma {:induction false} LiveIff(ws: Warnings, ms: seq<string>, r: nat, m: string)
    ensures m in Live(ws, ms, r) <==> m in ms && r < |Of(ws, m)|
  {
    hide Of;
    if ms != [] {
      LiveIff(ws, ms[..|ms| - 1], r, m);
      assert m in ms <==> m in ms[..|ms| - 1] || m == ms[|ms| - 1];
    }
  }

  lemma {:induction false} AmongSplits(ws: Warnings, ms: seq<string>, m: string)
    requires m !in ms
    ensures multiset(Among(ws, ms + [m])) == multiset(Among(ws, ms)) + multiset(Of(ws, m))
  {
    if ws != [] {
      AmongSplits(ws[..|ws| - 1], ms, m);
    }
  }

  lemma AmongNone(ws: Warnings)
    ensures Among(ws, []) == []
  {
  }

  lemma {:induction false} AmongAll(ws: Warnings, ms: seq<string>)
    requires Cover(ms, ws)
    ensures Among(ws, ms) == ws
  {
    if ws != [] {
      AmongAll(ws[..|ws| - 1], ms);
      assert ws[|ws| - 1] in ws;
      assert ws == ws[..|ws| - 1] + [ws[|ws| - 1]];
    }
  }

  lemma {:induction false} RestAtFirst(ws: Warnings, ms: seq<string>)
    requires Distinct(ms)
    ensures multiset(Rest(ws, ms, 0)) == multiset(Among(ws, ms))
  {
    hide Of, Among;
    if ms == [] {
      AmongNone(ws);
    } else {
      var front, m := ms[..|ms| - 1], ms[|ms| - 1];
      RestAtFirst(ws, front);
      assert ms == front + [m];
      AmongSplits(ws, front, m);
    }
  }

  lemma TurnTakesOne(ws: Warnings, m: string, r: nat)
    ensures Turn(ws, m, r) + From(Of(ws, m), r + 1) == From(Of(ws, m), r)
  {
    hide Of;
  }

  lemma {:induction false} RoundTakesFromRest(ws: Warnings, ms: seq<string>, r: nat)
    ensures multiset(Round(ws, ms, r)) + multiset(Rest(ws, ms, r + 1)) == multiset(Rest(ws, ms, r))
  {
    hide Of, Turn, From;
    if ms != [] {
      RoundTakesFromRest(ws, ms[..|ms| - 1], r);
      TurnTakesOne(ws, ms[|ms| - 1], r);
    }
  }

  lemma {:induction false} RoundsTakeFromRest(ws: Warnings, ms: seq<string>, r: nat)
    ensures multiset(Rounds(ws, ms, r)) + multiset(Rest(ws, ms, r)) == multiset(Rest(ws, ms, 0))
  {
    hide Round, Rest;
    if r > 0 {
      RoundsTakeFromRest(ws, ms, r - 1);
      RoundTakesFromRest(ws, ms, r - 1);
    }
  }

  lemma RoundsConserve(ws: Warnings, r: nat)
    ensures multiset(Rounds(ws, Modules(ws), r)) + multiset(Rest(ws, Modules(ws), r)) == multiset(ws)
  {
    hide Rounds, Rest, Modules, Among, Cover, Distinct;
    var ms := Modules(ws);
    ModulesDistinct(ws);
    ModulesCover(ws);
    RoundsTakeFromRest(ws, ms, r);
    RestAtFirst(ws, ms);
    AmongAll(ws, ms);
  }

  lemma RestOfNone(ws: Warnings, ms: seq<string>, r: nat)
    requires forall m :: m in ms ==> |Of(ws, m)| <= r
    ensures Rest(ws, ms, r) == []
  {
    hide Of;
  }

  lemma OfIsShorter(ws: Warnings, m: string)
    ensures |Of(ws, m)| <= |ws|
  {
  }

  /** Nothing is lost or repeated: the listing is a permutation of the list. */
  lemma ListingIsPermutation(ws: Warnings)
    ensures multiset(Listing(ws)) == multiset(ws)
  {
    hide Of, Modules, Rounds, Rest;
    forall m | m in Modules(ws) ensures |Of(ws, m)| <= |ws| { OfIsShorter(ws, m); }
    RestOfNone(ws, Modules(ws), |ws|);
    RoundsConserve(ws, |ws|);
  }

  /** As long as something is unlisted some module is live, so the loop never
      runs dry. */
  lemma LiveWhileUnlisted(ws: Warnings, r: nat)
    requires |Rounds(ws, Modules(ws), r)| < |ws|
    ensures Live(ws, Modules(ws), r) != []
  {
    hide Of, Modules, Rounds, Rest, Live;
    var ms := Modules(ws);
    if forall m :: m in ms ==> |Of(ws, m)| <= r {
      RestOfNone(ws, ms, r);
      RoundsConserve(ws, r);
      SameSize(Rounds(ws, ms, r), ws);
      assert false;
    }
    var m :| m in ms && |Of(ws, m)| > r;
    LiveIff(ws, ms, r, m);
  }

  lemma SameSize(a: Warnings, b: Warnings)
    requires multiset(a) == multiset(b)
    ensures |a| == |b|
  {
    assert |multiset(a)| == |a|;
  }

  lemma {:induction false} RoundsGrow(ws: Warnings, ms: seq<string>, r: nat, q: nat)
    requires r <= q
    ensures Rounds(ws, ms, r) <= Rounds(ws, ms, q)
  {
    hide Round;
    if r < q { RoundsGrow(ws, ms, r, q - 1); }
  }

  lemma RoundsAreListing(ws: Warnings, r: nat)
    ensures Rounds(ws, Modules(ws), r) <= Listing(ws)
  {
    hide Rounds, Modules, Rest;
    var ms := Modules(ws);
    if r <= |ws| {
      RoundsGrow(ws, ms, r, |ws|);
    } else {
      RoundsGrow(ws, ms, |ws|, r);
      ListingIsPermutation(ws);
      SameSize(Listing(ws), ws);
      RoundsConserve(ws, r);
      assert |multiset(Rounds(ws, ms, r))| <= |multiset(ws)|;
    }
  }

  // ---- fairness ----------------------------------------------------------

  lemma {:induction false} OfConcat(a: Warnings, b: Warnings, m: string)
    ensures Of(a + b, m) == Of(a, m) + Of(b, m)
  {
    if b == [] {
      assert a + b == a;
    } else {
      var front := b[..|b| - 1];
      OfConcat(a, front, m);
      assert (a + b)[..|a + b| - 1] == a + front;
    }
  }

  lemma {:induction false} OfHasLogger(ws: Warnings, m: string, i: nat)
    requires i < |Of(ws, m)|
    ensures Of(ws, m)[i].logger == m
  {
    if i < |Of(ws[..|ws| - 1], m)| { OfHasLogger(ws[..|ws| - 1], m, i); }
  }

  lemma OfTurn(ws: Warnings, m: string, r: nat, m2: string)
    ensures Of(Turn(ws, m, r), m2) == if m == m2 then Turn(ws, m, r) else []
  {
    if r < |Of(ws, m)| {
      var w := Of(ws, m)[r];
      OfHasLogger(ws, m, r);
      assert [w][..0] == [];
      assert Of([], m2) == [];
    }
  }

  /** One round adds to a module's lines its own turn and nothing else. */
  lemma {:induction false} OfRound(ws: Warnings, ms: seq<string>, r: nat, m: string)
    requires Distinct(ms)
    ensures Of(Round(ws, ms, r), m) == if m in ms then Turn(ws, m, r) else []
  {
    if ms != [] {
      var front, last := ms[..|ms| - 1], ms[|ms| - 1];
      OfRound(ws, front, r, m);
      assert m in ms <==> m in front || m == last;
      OfTurn(ws, last, r, m);
      hide Of, Turn;
      OfConcat(Round(ws, front, r), Turn(ws, last, r), m);
    }
  }

  lemma UptoTurn(ws: Warnings, m: string, r: nat)
    ensures Upto(Of(ws, m), r) + Turn(ws, m, r) == Upto(Of(ws, m), r + 1)
  {
    hide Of;
  }

  lemma OfNone(ws: Warnings, m: string)
    ensures Of([], m) == Upto(Of(ws, m), 0)
  {
  }

  lemma {:induction false} OfRounds(ws: Warnings, ms: seq<string>, r: nat, m: string)
    requires m in ms && Distinct(ms)
    ensures Of(Rounds(ws, ms, r), m) == Upto(Of(ws, m), r)
  {
    hide Of, Turn, Round, Distinct, Upto;
    if r == 0 {
      OfNone(ws, m);
    } else {
      var before, round := Rounds(ws, ms, r - 1), Round(ws, ms, r - 1);
      assert Rounds(ws, ms, r) == before + round;
      hide Rounds;
      OfRounds(ws, ms, r - 1, m);
      OfConcat(before, round, m);
      OfRound(ws, ms, r - 1, m);
      UptoTurn(ws, m, r - 1);
    }
  }

  /** Where the first k lines of a round stop, among its modules. */
  lemma {:induction false} CutRound(ws: Warnings, ms: seq<string>, r: nat, k: nat) returns (i: nat)
    requires k <= |Round(ws, ms, r)|
    ensures i <= |ms| && Round(ws, ms[..i], r) == Round(ws, ms, r)[..k]
  {
    hide Of;
    if k == |Round(ws, ms, r)| {
      i := |ms|;
      assert ms[..i] == ms;
    } else {
      var front := ms[..|ms| - 1];
      i := CutRound(ws, front, r, k);
      assert front[..i] == ms[..i];
    }
  }

  lemma {:induction false} CutRounds(ws: Warnings, ms: seq<string>, q: nat, k: nat) returns (r: nat, i: nat)
    requires k <= |Rounds(ws, ms, q)|
    ensures i <= |ms|
    ensures Rounds(ws, ms, r) + Round(ws, ms[..i], r) == Rounds(ws, ms, q)[..k]
  {
    if q == 0 {
      r, i := 0, 0;
      assert Round(ws, ms[..0], 0) == [];
    } else if k <= |Rounds(ws, ms, q - 1)| {
      hide Round;
      r, i := CutRounds(ws, ms, q - 1, k);
    } else {
      hide Round;
      r := q - 1;
      i := CutRound(ws, ms, r, k - |Rounds(ws, ms, r)|);
    }
  }

  lemma {:induction false} Shown(ws: Warnings, ms: seq<string>, r: nat, i: nat, m: string)
    requires i <= |ms| && m in ms && Distinct(ms)
    ensures Of(Rounds(ws, ms, r) + Round(ws, ms[..i], r), m)
            == Upto(Of(ws, m), if m in ms[..i] then r + 1 else r)
  {
    assert Distinct(ms[..i]);
    hide Of, Turn, Round, Rounds, Distinct;
    OfRounds(ws, ms, r, m);
    OfConcat(Rounds(ws, ms, r), Round(ws, ms[..i], r), m);
    OfRound(ws, ms[..i], r, m);
    UptoTurn(ws, m, r);
  }

  /** Each module shows its newest warnings, and a module with something hidden
      is at most one line behind any other. */
  ghost predicate Fair(ws: Warnings, shown: Warnings) {
    && (forall m :: m in Modules(ws) ==> Of(shown, m) <= Of(ws, m))
    && forall m, other :: m in Modules(ws) && other in Modules(ws) && |Of(shown, m)| < |Of(ws, m)| ==>
         |Of(shown, other)| <= |Of(shown, m)| + 1
  }

  /** The listing is fair wherever it is cut. */
  lemma ListingIsFair(ws: Warnings, k: int)
    ensures Fair(ws, Upto(Listing(ws), k))
  {
    hide Of, Modules, Round, Rounds, Distinct;
    var ms, all := Modules(ws), Rounds(ws, Modules(ws), |ws|);
    var cut := if k < 0 then 0 else if k < |all| then k else |all|;
    assert Upto(all, k) == all[..cut];
    var r, i := CutRounds(ws, ms, |ws|, cut);
    ModulesDistinct(ws);
    forall m | m in ms ensures Of(Upto(all, k), m) == Upto(Of(ws, m), if m in ms[..i] then r + 1 else r) {
      Shown(ws, ms, r, i, m);
    }
  }

  // ---- the formatter -----------------------------------------------------

  lemma RoundSpeaks(ws: Warnings, ms: seq<string>, r: nat)
    requires ms != [] && forall m :: m in ms ==> r < |Of(ws, m)|
    ensures Round(ws, ms, r) != []
  {
    hide Of;
    assert ms[|ms| - 1] in ms;
  }

  lemma LiveSnoc(ws: Warnings, ms: seq<string>, i: nat, r: nat)
    requires i < |ms|
    ensures Live(ws, ms[..i + 1], r) == Live(ws, ms[..i], r) + (if r < |Of(ws, ms[i])| then [ms[i]] else [])
  {
    hide Of;
    assert ms[..i + 1][..i] == ms[..i];
  }

  lemma RoundSnoc(ws: Warnings, ms: seq<string>, i: nat, r: nat)
    requires i < |ms|
    ensures Round(ws, ms[..i + 1], r) == Round(ws, ms[..i], r) + Turn(ws, ms[i], r)
  {
    hide Turn;
    assert ms[..i + 1][..i] == ms[..i];
  }

  /** A module without an r-th warning has no part in round r or later. */
  lemma {:induction false} RoundOfLive(ws: Warnings, ms: seq<string>, r: nat)
    ensures Round(ws, Live(ws, ms, r), r) == Round(ws, ms, r)
    ensures Live(ws, Live(ws, ms, r), r + 1) == Live(ws, ms, r + 1)
  {
    if ms != [] {
      hide Of, Live, Round;
      var n := |ms| - 1;
      var before, live := Live(ws, ms[..n], r), Live(ws, ms, r);
      assert ms[..n + 1] == ms;
      RoundOfLive(ws, ms[..n], r);
      LiveSnoc(ws, ms, n, r);
      LiveSnoc(ws, ms, n, r + 1);
      RoundSnoc(ws, ms, n, r);
      if r < |Of(ws, ms[n])| {
        assert live == before + [ms[n]] && live[..|before|] == before && live[..|before| + 1] == live;
        RoundSnoc(ws, live, |before|, r);
        LiveSnoc(ws, live, |before|, r + 1);
      } else {
        assert live == before;
        assert Round(ws, ms, r) == Round(ws, ms[..n], r);
        assert Live(ws, ms, r + 1) == Live(ws, ms[..n], r + 1);
      }
    }
  }

  lemma {:induction false} AllLiveAtFirst(ws: Warnings, ms: seq<string>)
    requires forall m :: m in ms ==> Of(ws, m) != []
    ensures Live(ws, ms, 0) == ms
  {
    hide Of;
    if ms != [] {
      AllLiveAtFirst(ws, ms[..|ms| - 1]);
      assert ms == ms[..|ms| - 1] + [ms[|ms| - 1]];
    }
  }

  lemma {:induction false} LiveDistinct(ws: Warnings, ms: seq<string>, r: nat)
    requires Distinct(ms)
    ensures Distinct(Live(ws, ms, r))
  {
    hide Of;
    if ms != [] {
      LiveDistinct(ws, ms[..|ms| - 1], r);
      LiveIff(ws, ms[..|ms| - 1], r, ms[|ms| - 1]);
    }
  }

  type Queues = map<string, Warnings>

  function Remove(ms: seq<string>, m: string): seq<string> {
    if ms == [] then [] else if ms[0] == m then ms[1..] else [ms[0]] + Remove(ms[1..], m)
  }

  lemma {:induction false} RemoveAt(ms: seq<string>, i: nat)
    requires i < |ms| && ms[i] !in ms[..i]
    ensures Remove(ms, ms[i]) == ms[..i] + ms[i + 1..]
  {
    if i > 0 {
      var tail := ms[1..];
      assert ms[0] == ms[..i][0];
      assert tail[..i - 1] == ms[..i][1..];
      RemoveAt(tail, i - 1);
    }
  }

  /** The queues of ms hold what their modules have left in round r. */
  ghost predicate Queued(ws: Warnings, ms: seq<string>, r: nat, queues: Queues) {
    forall m :: m in ms ==> m in queues && queues[m] == From(Of(ws, m), r)
  }

  /** Serving one module leaves the queues of the others alone. */
  lemma ServeOne(ws: Warnings, r: nat, served: seq<string>, m: string, waiting: seq<string>, q: Queues, q': Queues)
    requires Queued(ws, served, r + 1, q) && Queued(ws, waiting, r, q)
    requires m !in served && m !in waiting
    requires forall k :: k != m && k in q ==> k in q' && q'[k] == q[k]
    requires r + 1 < |Of(ws, m)| ==> m in q' && q'[m] == From(Of(ws, m), r + 1)
    ensures Queued(ws, waiting, r, q')
    ensures Queued(ws, served + (if r + 1 < |Of(ws, m)| then [m] else []), r + 1, q')
  {
    hide Of, From;
  }

  lemma QueuedFirst(ws: Warnings, keys: seq<string>, i: nat, r: nat, q: Queues)
    requires i < |keys| && Queued(ws, keys[i..], r, q)
    ensures keys[i] in q && q[keys[i]] == From(Of(ws, keys[i]), r)
    ensures Queued(ws, keys[i + 1..], r, q)
  {
    hide Of, From;
    assert keys[i..][0] == keys[i];
    assert keys[i..][1..] == keys[i + 1..];
  }

  lemma NoKeys(ws: Warnings, r: nat, q: Queues)
    ensures Live(ws, [], r + 1) == [] && Round(ws, [], r) == [] && Queued(ws, [], r + 1, q)
  {
  }

  lemma KeyOnce(keys: seq<string>, i: nat)
    requires i < |keys| && Distinct(keys)
    ensures keys[i] in keys && keys[i] !in keys[..i] && keys[i] !in keys[i + 1..]
  {
  }

  lemma FromTurn(ws: Warnings, m: string, r: nat)
    requires r < |Of(ws, m)|
    ensures From(Of(ws, m), r) == Turn(ws, m, r) + From(Of(ws, m), r + 1)
    ensures |Turn(ws, m, r)| == 1
    ensures From(Of(ws, m), r + 1) == [] <==> |Of(ws, m)| <= r + 1
  {
    hide Of;
  }

  lemma RemoveBetween(live: seq<string>, keys: seq<string>, i: nat)
    requires i < |keys| && keys[i] !in live
    ensures Remove(live + keys[i..], keys[i]) == live + keys[i + 1..]
  {
    var order := live + keys[i..];
    assert order[|live|] == keys[i] && order[..|live|] == live && order[|live| + 1..] == keys[i + 1..];
    RemoveAt(order, |live|);
  }

  /** The for loop: every module that has a queue gives one warning, and the
      queues that run empty are deleted. */
  method OneRound(ws: Warnings, ghost r: nat, keys: seq<string>, queues0: Queues)
      returns (taken: Warnings, order: seq<string>, queues: Queues)
    requires Distinct(keys) && Queued(ws, keys, r, queues0)
    requires forall m :: m in keys ==> r < |Of(ws, m)|
    ensures taken == Round(ws, keys, r)
    ensures order == Live(ws, keys, r + 1) && Queued(ws, order, r + 1, queues)
  {
    hide Of, Live, Round, Queued, Distinct, Turn, From;
    taken, order, queues := [], keys, queues0;
    assert keys[0..] == keys && keys[..0] == [];
    NoKeys(ws, r, queues);
    for i := 0 to |keys|
      invariant taken == Round(ws, keys[..i], r)
      invariant order == Live(ws, keys[..i], r + 1) + keys[i..]
      invariant Queued(ws, keys[i..], r, queues)
      invariant Queued(ws, Live(ws, keys[..i], r + 1), r + 1, queues)
    {
      var key := keys[i];
      ghost var live, before := Live(ws, keys[..i], r + 1), queues;
      KeyOnce(keys, i);
      LiveIff(ws, keys[..i], r + 1, key);
      QueuedFirst(ws, keys, i, r, queues);
      FromTurn(ws, key, r);
      RoundSnoc(ws, keys, i, r);
      LiveSnoc(ws, keys, i, r + 1);
      var item := queues[key][0];
      queues := queues[key := queues[key][1..]];
      if |queues[key]| < 1 {
        queues := queues - {key};
        RemoveBetween(live, keys, i);
        order := Remove(order, key);
      } else {
        assert live + keys[i..] == live + [key] + keys[i + 1..];
      }
      taken := taken + [item];
      ServeOne(ws, r, live, key, keys[i + 1..], before, queues);
    }
    assert keys[..|keys|] == keys;
  }

  /** The first loop: a queue for every module. */
  method Group(ws: Warnings) returns (order: seq<string>, queues: Queues)
    ensures order == Modules(ws) && Queued(ws, order, 0, queues)
  {
    order, queues := [], map[];
    for n := 0 to |ws|
      invariant order == Modules(ws[..n])
      invariant Queued(ws[..n], order, 0, queues)
    {
      var w := ws[n];
      assert ws[..n + 1][..n] == ws[..n];
      if w.logger !in order {
        order, queues := order + [w.logger], queues[w.logger := [w]];
        ModulesSpeak(ws[..n], w.logger);
      } else {
        queues := queues[w.logger := queues[w.logger] + [w]];
      }
    }
    assert ws[..|ws|] == ws;
  }

  /** The else branch: group by module, then one warning of every module a
      round until there are enough. `order` and `queues` are the OrderedDict. */
  method RoundRobin(ws: Warnings, limit: int) returns (lines: Warnings)
    requires limit <= |ws|
    ensures lines == Upto(Listing(ws), limit)
  {
    hide Of, Modules, Live, Round, Distinct;
    var order, queues := Group(ws);
    ghost var ms := Modules(ws);
    ModulesDistinct(ws);
    forall m | m in ms ensures Of(ws, m) != [] { ModulesSpeak(ws, m); }
    AllLiveAtFirst(ws, ms);
    lines := [];
    ghost var r := 0;
    while |lines| < limit
      invariant lines == Rounds(ws, ms, r)
      invariant order == Live(ws, ms, r)
      invariant Queued(ws, order, r, queues)
      decreases limit - |lines|
    {
      LiveWhileUnlisted(ws, r);
      LiveDistinct(ws, ms, r);
      forall m | m in order ensures r < |Of(ws, m)| { LiveIff(ws, ms, r, m); }
      RoundSpeaks(ws, order, r);
      RoundOfLive(ws, ms, r);
      var taken;
      taken, order, queues := OneRound(ws, r, order, queues);
      lines := lines + taken;
      r := r + 1;
    }
    hide Rounds, Listing, Queued;
    RoundsAreListing(ws, r);
    lines := Upto(lines, limit);
  }

  class StatusCommand {
    var appWarnings: Warnings
    const statusLimit: int
    const expiryDuration: real

    constructor (statusLimit: int, expiryDuration: real)
      ensures this.statusLimit == statusLimit && this.expiryDuration == expiryDuration && appWarnings == []
    {
      this.statusLimit, this.expiryDuration := statusLimit, expiryDuration;
      appWarnings := [];
    }

    method ExpireOldApplicationWarnings(now: real)
      modifies this
      ensures appWarnings == DropExpired(old(appWarnings), now - expiryDuration)
    {
      var threshold := now - expiryDuration;
      while |appWarnings| > 0 && appWarnings[0].timestamp < threshold
        invariant DropExpired(appWarnings, threshold) == DropExpired(old(appWarnings), threshold)
        decreases |appWarnings|
      {
        appWarnings := appWarnings[1..];
      }
    }

    /** The warnings behind the lines of the report; None is the empty text
        returned without warnings, which has no heading either. */
    method FormatApplicationWarnings() returns (shown: Option<Warnings>)
      ensures shown == Report(appWarnings, statusLimit)
    {
      if |appWarnings| < 1 { return None; }
      var newest := [];
      for n := 0 to |appWarnings|
        invariant newest == NewestFirst(appWarnings)[..n]
      {
        newest := newest + [appWarnings[|appWarnings| - 1 - n]];
      }
      assert newest == NewestFirst(appWarnings);
      if |appWarnings| < statusLimit {
        shown := Some(newest);
      } else {
        var lines := RoundRobin(newest, statusLimit);
        shown := Some(lines);
      }
    }
  }

  function Report(ws: Warnings, limit: int): Option<Warnings> {
    if ws == [] then None
    else if |ws| < limit then Some(NewestFirst(ws))
    else Some(Upto(Listing(NewestFirst(ws)), limit))
  }

  lemma {:induction false} NewestFirstKeeps(ws: Warnings)
    ensures multiset(NewestFirst(ws)) == multiset(ws)
  {
    if ws != [] {
      var front, last := ws[..|ws| - 1], ws[|ws| - 1];
      NewestFirstKeeps(front);
      assert NewestFirst(ws) == [last] + NewestFirst(front);
      assert ws == front + [last];
    }
  }

  /** The report shows as many warnings as there are, up to the limit, and
      none more often than it was raised. */
  lemma ReportCounts(ws: Warnings, limit: nat)
    requires ws != []
    ensures var shown := Report(ws, limit).value;
            |shown| == (if |ws| < limit then |ws| else limit) && multiset(shown) <= multiset(ws)
  {
    hide Listing;
    var newest := NewestFirst(ws);
    NewestFirstKeeps(ws);
    ListingIsPermutation(newest);
    SameSize(Listing(newest), ws);
    if limit <= |ws| {
      assert Listing(newest) == Listing(newest)[..limit] + Listing(newest)[limit..];
    }
  }

  // ---- what the report shows ----------------------------------------------

  lemma {:induction false} OfNewestFirst(ws: Warnings, m: string)
    ensures Of(NewestFirst(ws), m) == NewestFirst(Of(ws, m))
  {
    if ws == [] {
    } else {
      var front, last := ws[..|ws| - 1], ws[|ws| - 1];
      OfNewestFirst(front, m);
      assert NewestFirst(ws) == [last] + NewestFirst(front);
      OfConcat([last], NewestFirst(front), m);
      assert [last][..0] == [] && Of([], m) == [];
      if last.logger == m { NewestFirstSnoc(Of(front, m), last); }
    }
  }

  lemma NewestFirstSnoc(front: Warnings, last: Warning)
    ensures NewestFirst(front + [last]) == [last] + NewestFirst(front)
  {
  }

  /** What the report shows of a module are its newest warnings, newest first. */
  lemma ReportShowsNewest(ws: Warnings, limit: int, m: string)
    requires ws != []
    ensures Of(Report(ws, limit).value, m) <= NewestFirst(Of(ws, m))
  {
    hide Listing, Of, NewestFirst;
    var newest := NewestFirst(ws);
    OfNewestFirst(ws, m);
    if |ws| >= limit {
      ListingIsFair(newest, limit);
      if m !in Modules(newest) { ShownOfNone(newest, limit, m); }
    }
  }

  lemma ShownOfNone(ws: Warnings, k: int, m: string)
    requires m !in Modules(ws)
    ensures Of(Upto(Listing(ws), k), m) == []
  {
    var shown := Upto(Listing(ws), k);
    hide Listing, Of;
    ListingIsPermutation(ws);
    if Of(shown, m) != [] {
      SpeaksOnce(shown, m);
      var w :| w in shown && w.logger == m;
      assert w in Listing(ws);
      assert w in multiset(Listing(ws));
      assert w in ws;
      ModulesCover(ws);
    }
  }

  lemma {:induction false} SpeaksOnce(ws: Warnings, m: string)
    requires Of(ws, m) != []
    ensures exists w :: w in ws && w.logger == m
  {
    if ws[|ws| - 1].logger == m {
      assert ws[|ws| - 1] in ws;
    } else {
      SpeaksOnce(ws[..|ws| - 1], m);
    }
  }

  /** The i-th line of a round is the turn of the i-th module that still has one. */
  lemma {:induction false} RoundAt(ws: Warnings, ms: seq<string>, r: nat, i: nat)
    requires i < |Live(ws, ms, r)|
    ensures |Round(ws, ms, r)| == |Live(ws, ms, r)|
    ensures r < |Of(ws, Live(ws, ms, r)[i])| && Round(ws, ms, r)[i] == Of(ws, Live(ws, ms, r)[i])[r]
  {
    hide Of;
    var front := ms[..|ms| - 1];
    RoundSize(ws, front, r);
    if i < |Live(ws, front, r)| { RoundAt(ws, front, r, i); }
  }

  lemma {:induction false} RoundSize(ws: Warnings, ms: seq<string>, r: nat)
    ensures |Round(ws, ms, r)| == |Live(ws, ms, r)|
  {
    hide Of;
    if ms != [] { RoundSize(ws, ms[..|ms| - 1], r); }
  }

  /** The modules come in the order of their first warnings: where the i-th first
      speaks, exactly the earlier ones have spoken. */
  lemma {:induction false} ModulesInOrder(ws: Warnings, i: nat) returns (k: nat)
    requires i < |Modules(ws)|
    ensures k < |ws| && ws[k].logger == Modules(ws)[i] && Modules(ws[..k]) == Modules(ws)[..i]
  {
    var front := ws[..|ws| - 1];
    if i < |Modules(front)| {
      k := ModulesInOrder(front, i);
      assert front[..k] == ws[..k];
    } else {
      k := |front|;
    }
  }
}
