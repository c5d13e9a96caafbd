/** The nonce allocator (gateway/src/services/evm.nonce.ts:163-483) as a state
    machine over memory and store, and what holds in every run of it. Clock and
    node readings are inputs of each step. */
module EvmNonce {
  import opened Basics
  import opened Text
  import opened NonceStore

  /** One look at the clock and at the node's transaction count. */
  datatype Reading = Reading(now: nat, count: nat)

  datatype System = System(current: map<string, Nonce>, pending: map<string, seq<Nonce>>, db: Store)

  function PendingOf(s: System, a: string): seq<Nonce> { if a in s.pending then s.pending[a] else [] }

  function SaveCurrent(c: Config, s: System, a: string, n: Nonce): System
  {
    s.(current := s.current[a := n], db := s.db[CurrentKey(c, a) := EncodeNonce(n)])
  }

  function SavePending(c: Config, s: System, a: string, ns: seq<Nonce>): System
  {
    s.(pending := s.pending[a := ns], db := s.db[PendingKey(c, a) := EncodeList(ns)])
  }

  /** The entries whose nonce exceeds `floor`, in order. */
  function Above(ns: seq<Nonce>, floor: int): seq<Nonce>
  {
    if ns == [] then []
    else (if ns[0].nonce > floor then [ns[0]] else []) + Above(ns[1..], floor)
  }

  /** True when the cached nonce of `a` no longer shields it from the node. */
  predicate Refreshes(s: System, a: string, r: Reading)
  {
    (if a in s.current then s.current[a].expiry else -1) <= r.now
  }

  /** mergeNonceFromEVMNode */
  function Merge(c: Config, s: System, a: string, r: Reading): (s': System)
    ensures a in s'.current
  {
    if !Refreshes(s, a, r) then s
    else
      var s1 := SaveCurrent(c, s, a, Nonce(r.count - 1, r.now + c.localTTL));
      if PendingOf(s1, a) == [] then s1
      else SavePending(c, s1, a, Above(PendingOf(s1, a), r.count - 1))
  }

  /** getNonceFromNode */
  function FromNode(c: Config, s: System, a: string, r: Reading): System
  {
    SaveCurrent(c, s, a, Nonce(r.count - 1, r.now + c.pendingTTL))
  }

  /** getNonce: from memory when the address is known, else from the node. */
  function GetNonce(c: Config, s: System, a: string, r: Reading): (s': System)
    ensures a in s'.current
  {
    if a in s.current then Merge(c, s, a, r) else FromNode(c, s, a, r)
  }

  /** The index of the first entry past its expiry, or the length. */
  function FirstExpired(ns: seq<Nonce>, now: nat): (k: nat)
    ensures k <= |ns|
    ensures k < |ns| ==> now > ns[k].expiry
    ensures forall i :: 0 <= i < k ==> now <= ns[i].expiry
  {
    if ns == [] || now > ns[0].expiry then 0 else 1 + FirstExpired(ns[1..], now)
  }

  /** The branch of getNextNonce for a live list: reuse its first expired entry,
      else extend it by one. */
  function FromList(c: Config, s: System, a: string, now: nat): (System, int)
    requires PendingOf(s, a) != []
  {
    var ns, expiry := PendingOf(s, a), now + c.pendingTTL;
    var k := FirstExpired(ns, now);
    if k < |ns| then (SavePending(c, s, a, ns[k := Nonce(ns[k].nonce, expiry)]), ns[k].nonce)
    else
      var n := ns[|ns| - 1].nonce + 1;
      (SavePending(c, s, a, ns + [Nonce(n, expiry)]), n)
  }

  /** getNextNonce once it has merged: use the list, or start it one past the
      current nonce. */
  function AfterMerge(c: Config, s: System, a: string, now: nat, r2: Reading): (System, int)
  {
    if PendingOf(s, a) != [] then FromList(c, s, a, now)
    else
      var s2 := GetNonce(c, s, a, r2);
      var n := s2.current[a].nonce + 1;
      (SavePending(c, s2, a, [Nonce(n, now + c.pendingTTL)]), n)
  }

  /** getNextNonce */
  function NextNonce(c: Config, s: System, a: string, r1: Reading, now: nat, r2: Reading): (System, int)
  {
    AfterMerge(c, Merge(c, s, a, r1), a, now, r2)
  }

  /** commitNonce; refused unless it moves the current nonce forward. */
  predicate CommitAccepted(s: System, a: string, txNonce: int)
  {
    a in s.current ==> txNonce > s.current[a].nonce
  }

  function Commit(c: Config, s: System, a: string, now: nat, txNonce: int): System
  {
    if CommitAccepted(s, a, txNonce) then SaveCurrent(c, s, a, Nonce(txNonce, now + c.localTTL)) else s
  }

  function MergeEach(c: Config, s: System, visits: seq<(string, Reading)>): System
  {
    if visits == [] then s
    else
      var last := visits[|visits| - 1];
      Merge(c, MergeEach(c, s, visits[..|visits| - 1]), last.0, last.1)
  }

  /** A new process finds only the store. */
  function Reload(c: Config, s: System): System
  {
    System(LoadCurrent(c, s.db), LoadPending(c, s.db), s.db)
  }

  /** What init() finds before it merges: the store's entries over memory's. */
  function AfterLoad(c: Config, s: System): System
  {
    System(s.current + LoadCurrent(c, s.db), s.pending + LoadPending(c, s.db), s.db)
  }

  lemma AfterLoadOfNewProcess(c: Config, db: Store)
    ensures AfterLoad(c, System(map[], map[], db)) == Reload(c, System(map[], map[], db))
  {
    hide LoadCurrent, LoadPending;
    assert map[] + LoadCurrent(c, db) == LoadCurrent(c, db);
    assert map[] + LoadPending(c, db) == LoadPending(c, db);
  }

  datatype Op =
    | OpNext(a: string, r1: Reading, now: nat, r2: Reading)
    | OpMerge(a: string, r: Reading)
    | OpGet(a: string, r: Reading)
    | OpFromNode(a: string, r: Reading)
    | OpCommit(a: string, at: nat, txNonce: nat)
    | OpRestart(visits: seq<(string, Reading)>)

  function Step(c: Config, s: System, op: Op): System
  {
    match op
    case OpNext(a, r1, now, r2) => NextNonce(c, s, a, r1, now, r2).0
    case OpMerge(a, r) => Merge(c, s, a, r)
    case OpGet(a, r) => GetNonce(c, s, a, r)
    case OpFromNode(a, r) => FromNode(c, s, a, r)
    case OpCommit(a, at, tx) => Commit(c, s, a, at, tx)
    case OpRestart(visits) => MergeEach(c, Reload(c, s), visits)
  }

  // ---- runs --------------------------------------------------------------

  /** The node's transaction count per address at one moment. */
  type Counts = string -> nat

  ghost predicate Between(lo: nat, r: Reading, hi: nat) { lo <= r.count <= hi }

  /** The addresses are storable, and what an operation sees lies between what
      the node knew before and after it. Nothing is asked of the clock. */
  ghost predicate Observes(before: Counts, op: Op, after: Counts)
  {
    && (forall b :: before(b) <= after(b))
    && match op
       case OpNext(a, r1, _, r2) =>
         '/' !in a && Between(before(a), r1, r2.count) && Between(r1.count, r2, after(a))
       case OpMerge(a, r) => '/' !in a && Between(before(a), r, after(a))
       case OpGet(a, r) => '/' !in a && Between(before(a), r, after(a))
       case OpFromNode(a, r) => '/' !in a && Between(before(a), r, after(a))
       case OpCommit(a, _, _) => '/' !in a
       case OpRestart(visits) =>
         && (forall i :: 0 <= i < |visits| ==>
              '/' !in visits[i].0 && Between(before(visits[i].0), visits[i].1, after(visits[i].0)))
         && (forall i, j :: 0 <= i < j < |visits| ==> visits[i].0 != visits[j].0)
  }

  ghost predicate Behaviour(counts: seq<Counts>, ops: seq<Op>)
  {
    && |counts| == |ops| + 1
    && forall k :: 0 <= k < |ops| ==> Observes(counts[k], ops[k], counts[k + 1])
  }

  /** A store into which this chain has not written yet. */
  predicate Fresh(c: Config, db: Store)
  {
    '/' !in c.chain && LoadCurrent(c, db) == map[] && LoadPending(c, db) == map[]
  }

  function Exec(c: Config, db: Store, ops: seq<Op>): System
  {
    if ops == [] then System(map[], map[], db)
    else Step(c, Exec(c, db, ops[..|ops| - 1]), ops[|ops| - 1])
  }

  datatype Issue = Issue(nonce: int, time: nat)

  /** The nonces handed out for one address so far, and the nonce that the last
      refreshing merge learnt from the node. */
  datatype Log = Log(issues: seq<Issue>, seen: int)

  function SeenBy(s: System, a: string, r: Reading, log: Log): Log
  {
    if Refreshes(s, a, r) then log.(seen := r.count - 1) else log
  }

  function SeenByEach(c: Config, s: System, visits: seq<(string, Reading)>, a: string, log: Log): Log
  {
    if visits == [] then log
    else
      var front, last := visits[..|visits| - 1], visits[|visits| - 1];
      var log' := SeenByEach(c, s, front, a, log);
      if last.0 == a then SeenBy(MergeEach(c, s, front), a, last.1, log') else log'
  }

  function LogStep(c: Config, s: System, op: Op, a: string, log: Log): Log
  {
    match op
    case OpNext(b, r1, now, r2) =>
      if b != a then log
      else
        var s1, log1 := Merge(c, s, a, r1), SeenBy(s, a, r1, log);
        var log2 := if PendingOf(s1, a) == [] then SeenBy(s1, a, r2, log1) else log1;
        log2.(issues := log.issues + [Issue(NextNonce(c, s, a, r1, now, r2).1, now)])
    case OpMerge(b, r) => if b == a then SeenBy(s, a, r, log) else log
    case OpGet(b, r) => if b == a && a in s.current then SeenBy(s, a, r, log) else log
    case OpFromNode(_, _) => log
    case OpCommit(_, _, _) => log
    case OpRestart(visits) => SeenByEach(c, Reload(c, s), visits, a, log)
  }

  function LogOf(c: Config, db: Store, ops: seq<Op>, a: string): Log
  {
    if ops == [] then Log([], -1)
    else
      var front := ops[..|ops| - 1];
      LogStep(c, Exec(c, db, front), ops[|ops| - 1], a, LogOf(c, db, front, a))
  }

  /** The same nonce goes out twice only more than `ttl` apart. */
  ghost predicate Spaced(issues: seq<Issue>, ttl: int)
  {
    forall i, j :: 0 <= i < j < |issues| && issues[i].nonce == issues[j].nonce ==>
      issues[j].time > issues[i].time + ttl
  }

  predicate Consecutive(ns: seq<Nonce>)
  {
    forall i :: 0 <= i < |ns| ==> ns[i].nonce == ns[0].nonce + i
  }

  /** What every issue is worth while the list is `ns`: it is either below the
      list for good, or it holds a slot whose expiry covers it. */
  ghost predicate Covered(issues: seq<Issue>, ns: seq<Nonce>, seen: int, ttl: int)
  {
    forall i :: 0 <= i < |issues| ==>
      var h := issues[i];
      if ns == [] then h.nonce <= seen
      else
        && h.nonce <= ns[|ns| - 1].nonce
        && (h.nonce >= ns[0].nonce ==>
              h.nonce - ns[0].nonce < |ns| && ns[h.nonce - ns[0].nonce].expiry >= h.time + ttl)
  }

  /** The invariant of one address: its list, its cached nonce, its log, and a
      transaction count the node has already reached. */
  ghost predicate SlotInv(ttl: int, ns: seq<Nonce>, current: Option<int>, log: Log, count: nat)
  {
    && Consecutive(ns)
    && (ns != [] ==> ns[0].nonce > log.seen)
    && -1 <= log.seen <= count - 1
    && (current.Some? ==> current.value >= log.seen)
    && (current.None? ==> log == Log([], -1) && ns == [])
    && Covered(log.issues, ns, log.seen, ttl)
    && Spaced(log.issues, ttl)
  }

  function CurrentOf(s: System, a: string): Option<int>
  {
    if a in s.current then Some(s.current[a].nonce) else None
  }

  ghost predicate Inv(c: Config, s: System, a: string, log: Log, count: nat)
  {
    SlotInv(c.pendingTTL, PendingOf(s, a), CurrentOf(s, a), log, count)
  }

  // ---- each step keeps the invariant -------------------------------------

  /** On a consecutive run the filter is a cut: it drops the first `k` entries. */
  lemma {:induction false} AboveOfConsecutive(ns: seq<Nonce>, floor: int) returns (k: nat)
    requires Consecutive(ns)
    ensures k <= |ns| && Above(ns, floor) == ns[k..]
    ensures forall i :: 0 <= i < k ==> ns[i].nonce <= floor
    ensures k < |ns| ==> ns[k].nonce > floor
  {
    if ns == [] { return 0; }
    var tail := ns[1..];
    assert forall i :: 0 <= i < |tail| ==> tail[i] == ns[i + 1];
    var k' := AboveOfConsecutive(tail, floor);
    if ns[0].nonce > floor {
      assert tail == [] || tail[0].nonce > floor;
      k := 0;
      assert [ns[0]] + tail[0..] == ns[0..];
    } else {
      k := k' + 1;
      assert tail[k'..] == ns[k..];
      assert forall i :: 0 < i < k ==> ns[i] == tail[i - 1];
    }
  }

  lemma CutKeeps(ttl: int, ns: seq<Nonce>, k: nat, current: Option<int>, log: Log, count: nat, count': nat)
    requires SlotInv(ttl, ns, current, log, count) && k <= |ns| && count <= count'
    requires forall i :: 0 <= i < k ==> ns[i].nonce <= count' - 1
    requires k < |ns| ==> ns[k].nonce > count' - 1
    ensures SlotInv(ttl, ns[k..], Some(count' - 1), log.(seen := count' - 1), count')
  {
    var ns' := ns[k..];
    assert forall i :: 0 <= i < |ns'| ==> ns'[i] == ns[k + i];
    assert k == |ns| && ns != [] ==> ns[|ns| - 1].nonce <= count' - 1;
  }

  lemma SlotIsConsecutive(ttl: int, ns: seq<Nonce>, current: Option<int>, log: Log, count: nat)
    requires SlotInv(ttl, ns, current, log, count)
    ensures Consecutive(ns)
  {
  }

  lemma MergeIdle(c: Config, s: System, a: string, r: Reading)
    requires !Refreshes(s, a, r)
    ensures Merge(c, s, a, r) == s
  {
  }

  /** A merge that refreshes, as two writes. */
  lemma MergeParts(c: Config, s: System, a: string, r: Reading)
    requires Refreshes(s, a, r)
    ensures var s1, ns := SaveCurrent(c, s, a, Nonce(r.count - 1, r.now + c.localTTL)), PendingOf(s, a);
            PendingOf(s1, a) == ns && Merge(c, s, a, r) == if ns == [] then s1 else SavePending(c, s1, a, Above(ns, r.count - 1))
  {
  }

  lemma MergeEffect(c: Config, s: System, a: string, r: Reading)
    requires Refreshes(s, a, r)
    ensures PendingOf(Merge(c, s, a, r), a) == Above(PendingOf(s, a), r.count - 1)
    ensures CurrentOf(Merge(c, s, a, r), a) == Some(r.count - 1)
  {
  }

  lemma MergeKeeps(c: Config, s: System, a: string, r: Reading, log: Log, count: nat)
    requires Inv(c, s, a, log, count) && count <= r.count
    ensures Inv(c, Merge(c, s, a, r), a, SeenBy(s, a, r, log), r.count)
  {
    hide Merge, SlotInv, Above;
    var ns, current := PendingOf(s, a), CurrentOf(s, a);
    if Refreshes(s, a, r) {
      MergeEffect(c, s, a, r);
      SlotIsConsecutive(c.pendingTTL, ns, current, log, count);
      var k := AboveOfConsecutive(ns, r.count - 1);
      CutKeeps(c.pendingTTL, ns, k, current, log, count, r.count);
    } else {
      MergeIdle(c, s, a, r);
      CurrentMoves(c.pendingTTL, ns, current, count - 1, log, count, r.count);
    }
  }

  lemma MergeElsewhere(c: Config, s: System, a: string, b: string, r: Reading)
    requires a != b
    ensures var s' := Merge(c, s, b, r);
      PendingOf(s', a) == PendingOf(s, a) && (a in s'.current <==> a in s.current)
      && (a in s.current ==> s'.current[a] == s.current[a])
  {
  }

  lemma {:induction false} MergeEachKeeps(c: Config, s: System, visits: seq<(string, Reading)>, a: string, log: Log,
                                          count: nat, count': nat)
    requires Inv(c, s, a, log, count) && count <= count'
    requires forall i :: 0 <= i < |visits| && visits[i].0 == a ==> Between(count, visits[i].1, count')
    requires forall i, j :: 0 <= i < j < |visits| ==> visits[i].0 != visits[j].0
    ensures Inv(c, MergeEach(c, s, visits), a, SeenByEach(c, s, visits, a, log), count')
    ensures (forall i :: 0 <= i < |visits| ==> visits[i].0 != a) ==>
      Inv(c, MergeEach(c, s, visits), a, SeenByEach(c, s, visits, a, log), count)
  {
    if visits != [] {
      var front, last := visits[..|visits| - 1], visits[|visits| - 1];
      MergeEachKeeps(c, s, front, a, log, count, count');
      var s1, log1 := MergeEach(c, s, front), SeenByEach(c, s, front, a, log);
      if last.0 == a {
        MergeKeeps(c, s1, a, last.1, log1, count);
      } else {
        MergeElsewhere(c, s1, a, last.0, last.1);
      }
    }
  }

  lemma NextKeeps(c: Config, s: System, a: string, r1: Reading, now: nat, r2: Reading, log: Log, count: nat)
    requires c.pendingTTL >= 0 && Inv(c, s, a, log, count) && count <= r1.count <= r2.count
    ensures Inv(c, NextNonce(c, s, a, r1, now, r2).0, a, LogStep(c, s, OpNext(a, r1, now, r2), a, log), r2.count)
  {
    hide Merge, SlotInv, SeenBy, EncodeList, EncodeNonce, CurrentKey, PendingKey, FirstExpired, Consecutive;
    var s1, log1 := Merge(c, s, a, r1), SeenBy(s, a, r1, log);
    MergeKeeps(c, s, a, r1, log, count);
    var ns, current1 := PendingOf(s1, a), CurrentOf(s1, a);
    var (s', n) := NextNonce(c, s, a, r1, now, r2);
    var ttl, h := c.pendingTTL, Issue(n, now);
    LogKept(s, a, r1, log);
    if ns == [] {
      MergeKeeps(c, s1, a, r2, log1, r1.count);
      var s2 := Merge(c, s1, a, r2);
      MergeOfEmpty(c, s1, a, r2);
      LogKept(s1, a, r2, log1);
      SlotIssue(ttl, [], CurrentOf(s2, a), SeenBy(s1, a, r2, log1), r2.count, h, PendingOf(s', a));
    } else {
      CurrentMoves(ttl, ns, current1, r1.count, log1, r1.count, r2.count);
      SlotIssue(ttl, ns, current1, log1, r2.count, h, PendingOf(s', a));
    }
  }

  lemma LogKept(s: System, a: string, r: Reading, log: Log)
    ensures SeenBy(s, a, r, log).issues == log.issues
  {
  }

  lemma MergeOfEmpty(c: Config, s: System, a: string, r: Reading)
    requires PendingOf(s, a) == []
    ensures PendingOf(Merge(c, s, a, r), a) == []
  {
  }

  /** One more issue keeps the invariant, in the three ways it can come about. */
  lemma SlotIssue(ttl: int, ns: seq<Nonce>, current: Option<int>, log: Log, count: nat, h: Issue, ns': seq<Nonce>)
    requires ttl >= 0 && SlotInv(ttl, ns, current, log, count) && current.Some?
    requires
      || (ns == [] && h.nonce == current.value + 1 && ns' == [Nonce(h.nonce, h.time + ttl)])
      || (ns != [] && h.nonce == ns[|ns| - 1].nonce + 1 && ns' == ns + [Nonce(h.nonce, h.time + ttl)])
      || (exists k :: 0 <= k < |ns| && h.nonce == ns[k].nonce && ns[k].expiry < h.time
            && ns' == ns[k := Nonce(h.nonce, h.time + ttl)])
    ensures SlotInv(ttl, ns', current, log.(issues := log.issues + [h]), count)
  {
    IssueKeeps(log.issues, ns, log.seen, ttl, h, ns');
  }

  /** One more issue, in the three ways the list can change. */
  lemma IssueKeeps(issues: seq<Issue>, ns: seq<Nonce>, seen: int, ttl: int, h: Issue, ns': seq<Nonce>)
    requires ttl >= 0 && Consecutive(ns) && Spaced(issues, ttl) && Covered(issues, ns, seen, ttl)
    requires
      || (ns == [] && h.nonce > seen && ns' == [Nonce(h.nonce, h.time + ttl)])
      || (ns != [] && h.nonce == ns[|ns| - 1].nonce + 1 && ns' == ns + [Nonce(h.nonce, h.time + ttl)])
      || (exists k :: 0 <= k < |ns| && h.nonce == ns[k].nonce && ns[k].expiry < h.time
            && ns' == ns[k := Nonce(h.nonce, h.time + ttl)])
    ensures Spaced(issues + [h], ttl) && Covered(issues + [h], ns', seen, ttl) && Consecutive(ns')
  {
    forall i | 0 <= i < |issues| && issues[i].nonce == h.nonce ensures h.time > issues[i].time + ttl {
      assert ns != [];
      assert h.nonce != ns[|ns| - 1].nonce + 1;
    }
    forall i | 0 <= i < |issues| + 1
      ensures var g := (issues + [h])[i];
        && g.nonce <= ns'[|ns'| - 1].nonce
        && (g.nonce >= ns'[0].nonce ==>
              g.nonce - ns'[0].nonce < |ns'| && ns'[g.nonce - ns'[0].nonce].expiry >= g.time + ttl)
    {
      assert i < |issues| ==> (issues + [h])[i] == issues[i];
    }
  }

  // ---- the store always mirrors memory -----------------------------------

  /** What a new process would load is exactly what this one holds. */
  ghost predicate InSync(c: Config, s: System) { Reload(c, s) == s }

  lemma SavesKeepSync(c: Config, s: System, a: string, n: Nonce, ns: seq<Nonce>)
    requires '/' !in c.chain && '/' !in a && InSync(c, s)
    ensures InSync(c, SaveCurrent(c, s, a, n)) && InSync(c, SavePending(c, s, a, ns))
  {
    LoadAfterSaveCurrent(c, s.db, a, n);
    LoadAfterSavePending(c, s.db, a, ns);
  }

  lemma MergeKeepsSync(c: Config, s: System, a: string, r: Reading)
    requires '/' !in c.chain && '/' !in a && InSync(c, s)
    ensures InSync(c, Merge(c, s, a, r))
  {
    hide LoadCurrent, LoadPending;
    if Refreshes(s, a, r) {
      var n := Nonce(r.count - 1, r.now + c.localTTL);
      SavesKeepSync(c, s, a, n, []);
      var s1 := SaveCurrent(c, s, a, n);
      SavesKeepSync(c, s1, a, n, Above(PendingOf(s1, a), r.count - 1));
    }
  }

  lemma GetNonceKeepsSync(c: Config, s: System, a: string, r: Reading)
    requires '/' !in c.chain && '/' !in a && InSync(c, s)
    ensures InSync(c, GetNonce(c, s, a, r)) && InSync(c, FromNode(c, s, a, r))
  {
    hide LoadCurrent, LoadPending;
    MergeKeepsSync(c, s, a, r);
    SavesKeepSync(c, s, a, Nonce(r.count - 1, r.now + c.pendingTTL), []);
  }

  lemma {:induction false} MergeEachKeepsSync(c: Config, s: System, visits: seq<(string, Reading)>)
    requires '/' !in c.chain && InSync(c, s)
    requires forall i :: 0 <= i < |visits| ==> '/' !in visits[i].0
    ensures InSync(c, MergeEach(c, s, visits))
  {
    hide LoadCurrent, LoadPending;
    if visits != [] {
      var front, last := visits[..|visits| - 1], visits[|visits| - 1];
      MergeEachKeepsSync(c, s, front);
      MergeKeepsSync(c, MergeEach(c, s, front), last.0, last.1);
    }
  }

  lemma NextKeepsSync(c: Config, s: System, a: string, r1: Reading, now: nat, r2: Reading)
    requires '/' !in c.chain && '/' !in a && InSync(c, s)
    ensures InSync(c, NextNonce(c, s, a, r1, now, r2).0)
  {
    hide LoadCurrent, LoadPending;
    var s1 := Merge(c, s, a, r1);
    MergeKeepsSync(c, s, a, r1);
    GetNonceKeepsSync(c, s1, a, r2);
    var s2 := if PendingOf(s1, a) != [] then s1 else GetNonce(c, s1, a, r2);
    SavesKeepSync(c, s2, a, Nonce(0, 0), PendingOf(NextNonce(c, s, a, r1, now, r2).0, a));
  }

  lemma StepKeepsSync(c: Config, s: System, op: Op, before: Counts, after: Counts)
    requires '/' !in c.chain && InSync(c, s) && Observes(before, op, after)
    ensures InSync(c, Step(c, s, op))
  {
    hide LoadCurrent, LoadPending, Merge, MergeEach, NextNonce, GetNonce, FromNode;
    match op
    case OpNext(a, r1, now, r2) => NextKeepsSync(c, s, a, r1, now, r2);
    case OpMerge(a, r) => MergeKeepsSync(c, s, a, r);
    case OpGet(a, r) => GetNonceKeepsSync(c, s, a, r);
    case OpFromNode(a, r) => GetNonceKeepsSync(c, s, a, r);
    case OpCommit(a, at, tx) => SavesKeepSync(c, s, a, Nonce(tx, at + c.localTTL), []);
    case OpRestart(visits) => MergeEachKeepsSync(c, s, visits);
  }

  // ---- whole runs --------------------------------------------------------

  lemma StepElsewhere(c: Config, s: System, op: Op, a: string, log: Log)
    requires !op.OpRestart? && op.a != a
    ensures PendingOf(Step(c, s, op), a) == PendingOf(s, a)
    ensures CurrentOf(Step(c, s, op), a) == CurrentOf(s, a)
    ensures LogStep(c, s, op, a, log) == log
  {
    hide EncodeList, EncodeNonce, CurrentKey, PendingKey, Above, FirstExpired;
  }

  /** The cached nonce may move to anything not below what the node had shown. */
  lemma CurrentMoves(ttl: int, ns: seq<Nonce>, current: Option<int>, v: int, log: Log, count: nat, count': nat)
    requires SlotInv(ttl, ns, current, log, count) && count <= count'
    requires v >= count - 1 || (current.Some? && v >= current.value) || (current.None? && v >= -1)
    ensures SlotInv(ttl, ns, Some(v), log, count') && SlotInv(ttl, ns, current, log, count')
  {
  }

  lemma StepKeeps(c: Config, s: System, op: Op, a: string, log: Log, before: Counts, after: Counts)
    requires c.pendingTTL >= 0 && InSync(c, s) && Observes(before, op, after)
    requires Inv(c, s, a, log, before(a))
    ensures Inv(c, Step(c, s, op), a, LogStep(c, s, op, a, log), after(a))
  {
    hide LoadCurrent, LoadPending, SlotInv, Merge, MergeEach, NextNonce, SeenBy, SeenByEach;
    var ttl, ns, current, count, count' := c.pendingTTL, PendingOf(s, a), CurrentOf(s, a), before(a), after(a);
    assert count <= count';
    match op
    case OpRestart(visits) => MergeEachKeeps(c, s, visits, a, log, count, count');
    case _ =>
      CurrentMoves(ttl, ns, current, count, log, count, count');
      if op.a != a { StepElsewhere(c, s, op, a, log); }
      else {
        match op
        case OpNext(_, r1, now, r2) =>
          NextKeeps(c, s, a, r1, now, r2, log, count);
          var s' := NextNonce(c, s, a, r1, now, r2).0;
          CurrentMoves(ttl, PendingOf(s', a), CurrentOf(s', a), r2.count, LogStep(c, s, op, a, log), r2.count, count');
        case OpMerge(_, r) => MergeAndRead(c, s, a, r, log, count, count');
        case OpGet(_, r) => MergeAndRead(c, s, a, r, log, count, count');
        case OpFromNode(_, r) => CurrentMoves(ttl, ns, current, r.count - 1, log, count, count');
        case OpCommit(_, _, tx) => if CommitAccepted(s, a, tx) { CurrentMoves(ttl, ns, current, tx, log, count, count'); }
      }
  }

  lemma MergeAndRead(c: Config, s: System, a: string, r: Reading, log: Log, count: nat, count': nat)
    requires Inv(c, s, a, log, count) && Between(count, r, count')
    ensures Inv(c, Merge(c, s, a, r), a, SeenBy(s, a, r, log), count')
    ensures a !in s.current ==> Inv(c, FromNode(c, s, a, r), a, log, count')
  {
    hide SlotInv, Merge, SeenBy;
    MergeKeeps(c, s, a, r, log, count);
    var s' := Merge(c, s, a, r);
    CurrentMoves(c.pendingTTL, PendingOf(s', a), CurrentOf(s', a), r.count, SeenBy(s, a, r, log), r.count, count');
    CurrentMoves(c.pendingTTL, PendingOf(s, a), CurrentOf(s, a), r.count - 1, log, count, count');
  }

  lemma Initially(c: Config, db: Store, a: string, count: nat)
    requires Fresh(c, db)
    ensures InSync(c, System(map[], map[], db)) && Inv(c, System(map[], map[], db), a, Log([], -1), count)
  {
  }

  lemma {:induction false} Reachable(c: Config, db: Store, counts: seq<Counts>, ops: seq<Op>, a: string)
    requires Fresh(c, db) && c.pendingTTL >= 0 && Behaviour(counts, ops)
    ensures InSync(c, Exec(c, db, ops))
    ensures Inv(c, Exec(c, db, ops), a, LogOf(c, db, ops, a), counts[|ops|](a))
  {
    hide LoadCurrent, LoadPending, Inv, Step, LogStep, Observes, InSync;
    if ops == [] {
      Initially(c, db, a, counts[0](a));
    } else {
      var k := |ops| - 1;
      var front := ops[..k];
      forall i | 0 <= i < k ensures Observes(counts[..k + 1][i], front[i], counts[..k + 1][i + 1]) {
        assert Observes(counts[i], ops[i], counts[i + 1]);
      }
      Reachable(c, db, counts[..k + 1], front, a);
      var s := Exec(c, db, front);
      assert Observes(counts[k], ops[k], counts[k + 1]);
      StepKeeps(c, s, ops[k], a, LogOf(c, db, front, a), counts[k], counts[k + 1]);
      StepKeepsSync(c, s, ops[k], counts[k], counts[k + 1]);
    }
  }

  /** Safety: in every run, with restarts anywhere, a nonce issued at time t is
      not issued again for that address up to and including t + pendingNonceTTL. */
  lemma NoReissueWithinTTL(c: Config, db: Store, counts: seq<Counts>, ops: seq<Op>, a: string)
    requires Fresh(c, db) && c.pendingTTL >= 0 && Behaviour(counts, ops)
    ensures Spaced(LogOf(c, db, ops, a).issues, c.pendingTTL)
  {
    hide Exec, LogOf;
    Reachable(c, db, counts, ops, a);
  }

  /** Consecutive nonces above the node nonce seen by the last refreshing merge;
      whatever was issued is at most the list's last nonce, or at most that node
      nonce when the list is empty. */
  ghost predicate ListShape(ns: seq<Nonce>, log: Log)
  {
    && (forall i :: 0 <= i < |ns| ==> ns[i].nonce == ns[0].nonce + i && ns[i].nonce > log.seen)
    && (forall i :: 0 <= i < |log.issues| ==>
         log.issues[i].nonce <= if ns == [] then log.seen else ns[|ns| - 1].nonce)
  }

  /** Every reachable pending list has that shape. */
  lemma PendingIsConsecutive(c: Config, db: Store, counts: seq<Counts>, ops: seq<Op>, a: string)
    requires Fresh(c, db) && c.pendingTTL >= 0 && Behaviour(counts, ops)
    ensures ListShape(PendingOf(Exec(c, db, ops), a), LogOf(c, db, ops, a))
  {
    hide Exec, LogOf, LoadCurrent, LoadPending, Fresh, InSync;
    Reachable(c, db, counts, ops, a);
  }

  /** Restart is invisible: at every operation boundary the store gives back the
      very maps held in memory. */
  lemma RestartIsInvisible(c: Config, db: Store, counts: seq<Counts>, ops: seq<Op>)
    requires Fresh(c, db) && c.pendingTTL >= 0 && Behaviour(counts, ops)
    ensures var s := Exec(c, db, ops);
      LoadCurrent(c, s.db) == s.current && LoadPending(c, s.db) == s.pending
  {
    hide Exec;
    Reachable(c, db, counts, ops, "");
  }

  // ---- the cached nonce --------------------------------------------------

  /** A cached nonce shields the node for the time to live it was stored with:
      the local one after a merge or a commit, the pending one after a first look
      at the node. Until then a merge changes nothing, from then on it shows the
      node's count. */
  lemma CachedNonceLives(c: Config, s: System, a: string, r: Reading, txNonce: int, later: Reading)
    ensures Refreshes(s, a, r) && later.now < r.now + c.localTTL ==>
              Merge(c, Merge(c, s, a, r), a, later) == Merge(c, s, a, r)
    ensures CommitAccepted(s, a, txNonce) && later.now < r.now + c.localTTL ==>
              Merge(c, Commit(c, s, a, r.now, txNonce), a, later) == Commit(c, s, a, r.now, txNonce)
    ensures later.now < r.now + c.pendingTTL ==> Merge(c, FromNode(c, s, a, r), a, later) == FromNode(c, s, a, r)
    ensures later.now >= r.now + c.pendingTTL ==>
              CurrentOf(Merge(c, FromNode(c, s, a, r), a, later), a) == Some(later.count - 1)
    ensures Refreshes(s, a, r) && later.now >= r.now + c.localTTL ==>
              CurrentOf(Merge(c, Merge(c, s, a, r), a, later), a) == Some(later.count - 1)
    ensures CommitAccepted(s, a, txNonce) && later.now >= r.now + c.localTTL ==>
              CurrentOf(Merge(c, Commit(c, s, a, r.now, txNonce), a, later), a) == Some(later.count - 1)
  {
    hide SavePending, Above, EncodeNonce, EncodeList, CurrentKey, PendingKey;
    if Refreshes(s, a, r) { ShieldedUntil(c, s, a, r); }
    if Refreshes(Merge(c, s, a, r), a, later) { ShieldedUntil(c, Merge(c, s, a, r), a, later); }
    var s1 := Commit(c, s, a, r.now, txNonce);
    if Refreshes(s1, a, later) { ShieldedUntil(c, s1, a, later); }
    var s2 := FromNode(c, s, a, r);
    if Refreshes(s2, a, later) { ShieldedUntil(c, s2, a, later); }
  }

  /** A commit never moves a cached nonce back, forgets no pending nonce and
      touches no other address. */
  lemma CommitOnlyForward(c: Config, s: System, a: string, at: nat, txNonce: int, b: string)
    ensures var s' := Commit(c, s, a, at, txNonce);
            && s'.pending == s.pending && (b != a ==> CurrentOf(s', b) == CurrentOf(s, b))
            && (a in s.current ==> s'.current[a].nonce == if txNonce > s.current[a].nonce then txNonce else s.current[a].nonce)
            && (a !in s.current ==> CurrentOf(s', a) == Some(txNonce))
  {
    hide EncodeNonce, CurrentKey;
  }

  lemma ShieldedUntil(c: Config, s: System, a: string, r: Reading)
    requires Refreshes(s, a, r)
    ensures Merge(c, s, a, r).current == s.current[a := Nonce(r.count - 1, r.now + c.localTTL)]
  {
  }

  /** The nonce cached for an address at the time of a reading: what is remembered
      while its expiry lies ahead, else what the node shows. */
  function CachedAt(s: System, a: string, r: Reading): int
  {
    if a in s.current && s.current[a].expiry > r.now then s.current[a].nonce else r.count - 1
  }

  /** How long it is cached from then on. */
  function CachedUntil(c: Config, s: System, a: string, r: Reading): int
  {
    if a in s.current && s.current[a].expiry > r.now then s.current[a].expiry else r.now + c.localTTL
  }

  /** What a call issues when it finds the list empty: one more than the nonce
      cached at its first reading if that is still cached at its second, else the
      count of the second reading. */
  lemma NextFromEmpty(c: Config, s: System, a: string, r1: Reading, now: nat, r2: Reading)
    requires ListSeen(c, s, a, r1) == []
    ensures NextNonce(c, s, a, r1, now, r2).1
            == if CachedUntil(c, s, a, r1) > r2.now then CachedAt(s, a, r1) + 1 else r2.count
  {
    hide SavePending, Above, EncodeNonce, EncodeList, CurrentKey, PendingKey;
    var s1 := Merge(c, s, a, r1);
    CurrentAfterMerge(c, s, a, r1);
    CurrentAfterMerge(c, s1, a, r2);
    assert GetNonce(c, s1, a, r2) == Merge(c, s1, a, r2);
  }

  lemma CurrentAfterMerge(c: Config, s: System, a: string, r: Reading)
    ensures Merge(c, s, a, r).current[a] == Nonce(CachedAt(s, a, r), CachedUntil(c, s, a, r))
  {
    if Refreshes(s, a, r) { ShieldedUntil(c, s, a, r); }
  }

  lemma EmptyStaysEmpty(c: Config, s: System, a: string, r: Reading)
    requires PendingOf(s, a) == []
    ensures ListSeen(c, s, a, r) == []
  {
  }

  /** After a commit the next nonce of an empty list follows the committed one, as
      long as the commit is remembered. */
  lemma CommitThenNext(c: Config, s: System, a: string, at: nat, txNonce: int, r1: Reading, now: nat, r2: Reading)
    requires PendingOf(s, a) == [] && CommitAccepted(s, a, txNonce)
    requires r1.now < at + c.localTTL && r2.now < at + c.localTTL
    ensures NextNonce(c, Commit(c, s, a, at, txNonce), a, r1, now, r2).1 == txNonce + 1
  {
    hide EncodeNonce, CurrentKey, NextNonce;
    var s' := Commit(c, s, a, at, txNonce);
    EmptyStaysEmpty(c, s', a, r1);
    NextFromEmpty(c, s', a, r1, now, r2);
  }

  /** Nothing in this operation replaces what is cached for `a` until then. */
  ghost predicate Spares(op: Op, a: string, until: int)
  {
    match op
    case OpNext(b, r1, _, r2) => b == a ==> r1.now < until && r2.now < until
    case OpMerge(b, r) => b == a ==> r.now < until
    case OpGet(b, r) => b == a ==> r.now < until
    case OpFromNode(b, _) => b != a
    case OpCommit(b, _, _) => b != a
    case OpRestart(visits) => forall i :: 0 <= i < |visits| && visits[i].0 == a ==> visits[i].1.now < until
  }

  ghost predicate AllSpare(ops: seq<Op>, a: string, until: int)
  {
    forall i :: 0 <= i < |ops| ==> Spares(ops[i], a, until)
  }

  ghost predicate Remembers(s: System, a: string, n: Nonce) { a in s.current && s.current[a] == n }

  lemma MergeRemembers(c: Config, s: System, a: string, n: Nonce, b: string, r: Reading)
    requires Remembers(s, a, n) && (b == a ==> r.now < n.expiry)
    ensures Remembers(Merge(c, s, b, r), a, n) && (b in s.current ==> Remembers(GetNonce(c, s, b, r), a, n))
  {
    hide Merge;
    if b == a { MergeIdle(c, s, a, r); } else { MergeElsewhere(c, s, a, b, r); }
  }

  lemma {:induction false} MergeEachRemembers(c: Config, s: System, visits: seq<(string, Reading)>, a: string, n: Nonce)
    requires Remembers(s, a, n) && Spares(OpRestart(visits), a, n.expiry)
    ensures Remembers(MergeEach(c, s, visits), a, n)
  {
    if visits != [] {
      hide Merge, Remembers;
      var front, last := visits[..|visits| - 1], visits[|visits| - 1];
      MergeEachRemembers(c, s, front, a, n);
      MergeRemembers(c, MergeEach(c, s, front), a, n, last.0, last.1);
    }
  }

  lemma StepRemembers(c: Config, s: System, op: Op, a: string, n: Nonce)
    requires Remembers(s, a, n) && Spares(op, a, n.expiry) && InSync(c, s)
    ensures Remembers(Step(c, s, op), a, n)
  {
    hide Merge, MergeEach, LoadCurrent, LoadPending, FirstExpired, EncodeNonce, EncodeList, CurrentKey, PendingKey;
    match op
    case OpNext(b, r1, now, r2) =>
      MergeRemembers(c, s, a, n, b, r1);
      MergeRemembers(c, Merge(c, s, b, r1), a, n, b, r2);
    case OpMerge(b, r) => MergeRemembers(c, s, a, n, b, r);
    case OpGet(b, r) => MergeRemembers(c, s, a, n, b, r);
    case OpRestart(visits) => MergeEachRemembers(c, s, visits, a, n);
    case _ =>
  }

  lemma LastSpares(ops: seq<Op>, a: string, until: int)
    requires ops != [] && AllSpare(ops, a, until)
    ensures AllSpare(ops[..|ops| - 1], a, until) && Spares(ops[|ops| - 1], a, until)
  {
    hide Spares;
  }

  lemma {:induction false} RememberedThrough(c: Config, db: Store, counts: seq<Counts>, start: seq<Op>, rest: seq<Op>,
                                             a: string, n: Nonce)
    requires Fresh(c, db) && c.pendingTTL >= 0 && Behaviour(counts, start + rest)
    requires Remembers(Exec(c, db, start), a, n) && AllSpare(rest, a, n.expiry)
    ensures Remembers(Exec(c, db, start + rest), a, n)
    decreases |rest|
  {
    hide *;
    if rest == [] {
      assert start + rest == start;
    } else {
      var most, op := rest[..|rest| - 1], rest[|rest| - 1];
      assert start + rest == (start + most) + [op];
      LastSpares(rest, a, n.expiry);
      BehaviourFront(counts, start + most, op);
      RememberedThrough(c, db, counts[..|start + most| + 1], start, most, a, n);
      Reachable(c, db, counts[..|start + most| + 1], start + most, a);
      ExecSnoc(c, db, start + most, op);
      StepRemembers(c, Exec(c, db, start + most), op, a, n);
    }
  }

  /** In every run an accepted commit is remembered, restarts included, through
      whatever does not replace it. */
  lemma CommitRemembered(c: Config, db: Store, counts: seq<Counts>, front: seq<Op>, at: nat, txNonce: nat, a: string,
                         rest: seq<Op>)
    requires Fresh(c, db) && c.pendingTTL >= 0 && CommitAccepted(Exec(c, db, front), a, txNonce)
    requires Behaviour(counts, front + [OpCommit(a, at, txNonce)] + rest)
    requires AllSpare(rest, a, at + c.localTTL)
    ensures Remembers(Exec(c, db, front + [OpCommit(a, at, txNonce)] + rest), a, Nonce(txNonce, at + c.localTTL))
  {
    hide *;
    ExecSnoc(c, db, front, OpCommit(a, at, txNonce));
    CommitIsRemembered(c, Exec(c, db, front), a, at, txNonce);
    RememberedThrough(c, db, counts, front + [OpCommit(a, at, txNonce)], rest, a, Nonce(txNonce, at + c.localTTL));
  }

  lemma CommitIsRemembered(c: Config, s: System, a: string, at: nat, txNonce: nat)
    requires CommitAccepted(s, a, txNonce)
    ensures Remembers(Step(c, s, OpCommit(a, at, txNonce)), a, Nonce(txNonce, at + c.localTTL))
  {
    hide EncodeNonce, CurrentKey;
  }

  lemma ExecSnoc(c: Config, db: Store, front: seq<Op>, op: Op)
    ensures Exec(c, db, front + [op]) == Step(c, Exec(c, db, front), op)
  {
    hide Step;
    assert (front + [op])[..|front|] == front;
  }

  lemma BehaviourFront(counts: seq<Counts>, front: seq<Op>, op: Op)
    requires Behaviour(counts, front + [op])
    ensures |counts| > |front| && Behaviour(counts[..|front| + 1], front)
  {
    hide Observes;
    var ops := front + [op];
    forall k | 0 <= k < |front| ensures Observes(counts[..|front| + 1][k], front[k], counts[..|front| + 1][k + 1]) {
      assert Observes(counts[k], ops[k], counts[k + 1]);
    }
  }

  /** So in every run the first nonce of an empty list after a commit follows the
      committed one, as long as the commit is remembered. */
  lemma NextAfterCommit(c: Config, db: Store, counts: seq<Counts>, front: seq<Op>, at: nat, txNonce: nat, a: string,
                        rest: seq<Op>, r1: Reading, now: nat, r2: Reading)
    requires Fresh(c, db) && c.pendingTTL >= 0 && CommitAccepted(Exec(c, db, front), a, txNonce)
    requires Behaviour(counts, front + [OpCommit(a, at, txNonce)] + rest)
    requires AllSpare(rest, a, at + c.localTTL)
    requires r1.now < at + c.localTTL && r2.now < at + c.localTTL
    ensures var s := Exec(c, db, front + [OpCommit(a, at, txNonce)] + rest);
      ListSeen(c, s, a, r1) == [] ==> NextNonce(c, s, a, r1, now, r2).1 == txNonce + 1
  {
    hide Exec, Fresh, Behaviour, CommitAccepted, AllSpare, ListSeen, NextNonce;
    CommitRemembered(c, db, counts, front, at, txNonce, a, rest);
    var s := Exec(c, db, front + [OpCommit(a, at, txNonce)] + rest);
    if ListSeen(c, s, a, r1) == [] { NextFromEmpty(c, s, a, r1, now, r2); }
  }

  /** Asking for a nonce: what is cached while it lasts; for a new address the
      node's count less one, kept for the pending time to live. */
  lemma GetNonceIs(c: Config, s: System, a: string, r: Reading, later: Reading)
    ensures GetNonce(c, s, a, r).current[a].nonce == CachedAt(s, a, r)
    ensures a !in s.current ==> CachedUntil(c, GetNonce(c, s, a, r), a, later)
                                == if later.now < r.now + c.pendingTTL then r.now + c.pendingTTL else later.now + c.localTTL
  {
    hide EncodeNonce, CurrentKey, SavePending;
    if a in s.current { CurrentAfterMerge(c, s, a, r); }
  }

  /** From s to s' the nonce of an address has become what it was at a reading. */
  ghost predicate CachedFrom(c: Config, s: System, s': System, a: string, r: Reading)
  {
    a in s'.current && s'.current[a] == Nonce(CachedAt(s, a, r), CachedUntil(c, s, a, r))
  }

  /** A restart asks the node about every visited address whose cached nonce has
      run out, and about no other. */
  lemma RestartRefreshes(c: Config, s: System, visits: seq<(string, Reading)>, i: nat)
    requires i < |visits| && InSync(c, s)
    requires forall j, k :: 0 <= j < k < |visits| ==> visits[j].0 != visits[k].0
    ensures CachedFrom(c, s, Step(c, s, OpRestart(visits)), visits[i].0, visits[i].1)
  {
    hide CachedFrom, MergeEach, Reload;
    MergeEachRefreshes(c, s, visits, i);
  }

  lemma {:induction false} MergeEachRefreshes(c: Config, s: System, visits: seq<(string, Reading)>, i: nat)
    requires i < |visits|
    requires forall j, k :: 0 <= j < k < |visits| ==> visits[j].0 != visits[k].0
    ensures CachedFrom(c, s, MergeEach(c, s, visits), visits[i].0, visits[i].1)
  {
    hide Merge;
    var front, last := visits[..|visits| - 1], visits[|visits| - 1];
    var s1, a := MergeEach(c, s, front), visits[i].0;
    if i < |front| {
      MergeEachRefreshes(c, s, front, i);
      MergeElsewhere(c, s1, a, last.0, last.1);
    } else {
      MergeEachElsewhere(c, s, front, a);
      CurrentAfterMerge(c, s1, a, last.1);
    }
  }

  lemma {:induction false} MergeEachElsewhere(c: Config, s: System, visits: seq<(string, Reading)>, a: string)
    requires forall i :: 0 <= i < |visits| ==> visits[i].0 != a
    ensures var s' := MergeEach(c, s, visits);
      (a in s'.current <==> a in s.current) && (a in s.current ==> s'.current[a] == s.current[a])
  {
    hide Merge;
    if visits != [] {
      var front, last := visits[..|visits| - 1], visits[|visits| - 1];
      MergeEachElsewhere(c, s, front, a);
      MergeElsewhere(c, MergeEach(c, s, front), a, last.0, last.1);
    }
  }

  // ---- fresh and reused nonces -------------------------------------------

  lemma SlotIssueIsNew(ttl: int, ns: seq<Nonce>, current: Option<int>, log: Log, count: nat, n: int)
    requires SlotInv(ttl, ns, current, log, count) && current.Some?
    requires n == if ns == [] then current.value + 1 else ns[|ns| - 1].nonce + 1
    ensures n > log.seen && forall i :: 0 <= i < |log.issues| ==> log.issues[i].nonce < n
  {
  }

  lemma SlotEntryAbove(ttl: int, ns: seq<Nonce>, current: Option<int>, log: Log, count: nat, k: nat)
    requires SlotInv(ttl, ns, current, log, count) && k < |ns|
    ensures log.seen < ns[k].nonce <= ns[|ns| - 1].nonce
  {
  }

  /** What the list holds when getNextNonce looks at it. */
  function ListSeen(c: Config, s: System, a: string, r1: Reading): seq<Nonce> { PendingOf(Merge(c, s, a, r1), a) }

  ghost predicate NewUnlessExpired(ns: seq<Nonce>, now: nat, issues: seq<Issue>, seen: int, n: int) {
    && n > seen
    && if FirstExpired(ns, now) == |ns| then forall i :: 0 <= i < |issues| ==> issues[i].nonce < n
       else n == ns[FirstExpired(ns, now)].nonce <= ns[|ns| - 1].nonce
  }

  lemma NextIsNew(c: Config, s: System, a: string, r1: Reading, now: nat, r2: Reading, log: Log, count: nat)
    requires Inv(c, s, a, log, count) && count <= r1.count <= r2.count
    ensures NewUnlessExpired(ListSeen(c, s, a, r1), now, log.issues,
                             LogStep(c, s, OpNext(a, r1, now, r2), a, log).seen, NextNonce(c, s, a, r1, now, r2).1)
  {
    hide Merge, SlotInv, SeenBy, EncodeList, EncodeNonce, CurrentKey, PendingKey, FirstExpired, Consecutive;
    var s1, log1 := Merge(c, s, a, r1), SeenBy(s, a, r1, log);
    MergeKeeps(c, s, a, r1, log, count);
    LogKept(s, a, r1, log);
    var ns, ttl := PendingOf(s1, a), c.pendingTTL;
    if ns == [] {
      MergeKeeps(c, s1, a, r2, log1, r1.count);
      MergeOfEmpty(c, s1, a, r2);
      LogKept(s1, a, r2, log1);
      var s2 := Merge(c, s1, a, r2);
      SlotIssueIsNew(ttl, [], CurrentOf(s2, a), SeenBy(s1, a, r2, log1), r2.count, s2.current[a].nonce + 1);
    } else if FirstExpired(ns, now) < |ns| {
      SlotEntryAbove(ttl, ns, CurrentOf(s1, a), log1, r1.count, FirstExpired(ns, now));
    } else {
      SlotIssueIsNew(ttl, ns, CurrentOf(s1, a), log1, r1.count, ns[|ns| - 1].nonce + 1);
    }
  }

  /** After every run the next nonce lies above the node nonce of the last
      refreshing merge; it exceeds everything issued before unless an entry of
      the list has expired, and then it is the first expired one. */
  lemma NextIsNewUnlessExpired(c: Config, db: Store, counts: seq<Counts>, ops: seq<Op>, a: string,
                               r1: Reading, now: nat, r2: Reading)
    requires Fresh(c, db) && c.pendingTTL >= 0 && Behaviour(counts, ops)
    requires counts[|ops|](a) <= r1.count <= r2.count
    ensures var s, log := Exec(c, db, ops), LogOf(c, db, ops, a);
            NewUnlessExpired(ListSeen(c, s, a, r1), now, log.issues,
                             LogStep(c, s, OpNext(a, r1, now, r2), a, log).seen, NextNonce(c, s, a, r1, now, r2).1)
  {
    hide Exec, LogOf, ListSeen, NextNonce, LogStep, NewUnlessExpired, Inv, InSync, Fresh, Observes;
    Reachable(c, db, counts, ops, a);
    NextIsNew(c, Exec(c, db, ops), a, r1, now, r2, LogOf(c, db, ops, a), counts[|ops|](a));
  }

  /** What goes out expires a pending time to live after the call: handed out again
      by the next call after that, else followed by the next nonce. */
  lemma ReusedOnceExpired(c: Config, s: System, a: string, first: Call, second: Call)
    requires ListSeen(c, s, a, first.r1) == []
    requires second.r1.count <= NextNonce(c, s, a, first.r1, first.now, first.r2).1
    ensures var (s1, n) := NextNonce(c, s, a, first.r1, first.now, first.r2);
      PendingOf(s1, a) == [Nonce(n, first.now + c.pendingTTL)]
      && NextNonce(c, s1, a, second.r1, second.now, second.r2).1
         == if second.now > first.now + c.pendingTTL then n else n + 1
  {
    hide EncodeNonce, EncodeList, CurrentKey, PendingKey, GetNonce, Merge;
    var (s1, n) := NextNonce(c, s, a, first.r1, first.now, first.r2);
    var ns := [Nonce(n, first.now + c.pendingTTL)];
    assert PendingOf(s1, a) == ns;
    if Refreshes(s1, a, second.r1) { MergeEffect(c, s1, a, second.r1); } else { MergeIdle(c, s1, a, second.r1); }
    assert Above(ns, second.r1.count - 1) == ns;
    assert PendingOf(Merge(c, s1, a, second.r1), a) == ns;
  }

  // ---- bursts ------------------------------------------------------------

  datatype Call = Call(r1: Reading, now: nat, r2: Reading)

  function Burst(c: Config, s: System, a: string, calls: seq<Call>): (r: (System, seq<int>))
    ensures |r.1| == |calls|
    decreases |calls|
  {
    if calls == [] then (s, [])
    else
      var (s1, n) := NextNonce(c, s, a, calls[0].r1, calls[0].now, calls[0].r2);
      var (s2, rest) := Burst(c, s1, a, calls[1..]);
      (s2, [n] + rest)
  }

  /** Nothing in the list, nor anything the burst adds to it, is past its expiry
      when a call looks, and the node confirms no nonce that has not gone out. */
  ghost predicate NothingExpires(ttl: int, ns: seq<Nonce>, last: int, calls: seq<Call>)
  {
    && (forall k, i :: 0 <= k < |calls| && 0 <= i < |ns| ==> calls[k].now <= ns[i].expiry)
    && (forall j, k :: 0 <= j < k < |calls| ==> calls[k].now <= calls[j].now + ttl)
    && (forall k :: 0 <= k < |calls| ==> calls[k].r1.count <= calls[k].r2.count <= last + k + 1)
  }

  lemma {:induction false} NoneExpired(ns: seq<Nonce>, now: nat)
    requires forall i :: 0 <= i < |ns| ==> now <= ns[i].expiry
    ensures FirstExpired(ns, now) == |ns|
  {
    if ns != [] {
      assert forall i :: 0 <= i < |ns| - 1 ==> ns[1..][i] == ns[i + 1];
      NoneExpired(ns[1..], now);
    }
  }

  /** A call that finds a live list: what survives the merge, if anything, plus
      one entry. */
  lemma NextExtends(c: Config, s: System, a: string, call: Call) returns (k: nat)
    requires PendingOf(s, a) != [] && Consecutive(PendingOf(s, a))
    requires var ns := PendingOf(s, a);
      && (forall i :: 0 <= i < |ns| ==> call.now <= ns[i].expiry)
      && call.r1.count <= call.r2.count <= ns[|ns| - 1].nonce + 1
    ensures var ns := PendingOf(s, a);
      var (s', n) := NextNonce(c, s, a, call.r1, call.now, call.r2);
      && k <= |ns| && n == ns[|ns| - 1].nonce + 1
      && PendingOf(s', a) == ns[k..] + [Nonce(n, call.now + c.pendingTTL)]
  {
    hide EncodeList, EncodeNonce, CurrentKey, PendingKey, Above, FirstExpired, Merge;
    var ns := PendingOf(s, a);
    k := AboveOfConsecutive(ns, call.r1.count - 1);
    if Refreshes(s, a, call.r1) { MergeEffect(c, s, a, call.r1); } else { MergeIdle(c, s, a, call.r1); k := 0; }
    assert PendingOf(Merge(c, s, a, call.r1), a) == ns[k..];
    if k < |ns| {
      NoneExpired(ns[k..], call.now);
    } else {
      var s1 := Merge(c, s, a, call.r1);
      MergeOfEmpty(c, s1, a, call.r2);
      if Refreshes(s1, a, call.r2) { MergeEffect(c, s1, a, call.r2); } else { MergeIdle(c, s1, a, call.r2); }
      assert CurrentOf(Merge(c, s1, a, call.r2), a) == Some(ns[|ns| - 1].nonce);
    }
  }

  lemma ExtensionLives(ttl: int, ns: seq<Nonce>, k: nat, calls: seq<Call>, n: int, ns': seq<Nonce>)
    requires calls != [] && ns != [] && k <= |ns| && Consecutive(ns) && n == ns[|ns| - 1].nonce + 1
    requires NothingExpires(ttl, ns, n - 1, calls)
    requires ns' == ns[k..] + [Nonce(n, calls[0].now + ttl)]
    ensures Consecutive(ns') && ns'[|ns'| - 1].nonce == n && NothingExpires(ttl, ns', n, calls[1..])
  {
    var rest := calls[1..];
    assert forall j :: 0 <= j < |rest| ==> rest[j] == calls[j + 1];
    assert forall i :: 0 <= i < |ns'| - 1 ==> ns'[i] == ns[k + i];
  }

  /** While nothing expires, a burst of k calls goes out as n, n+1, ..., n+k-1. */
  lemma {:induction false} BurstIsConsecutive(c: Config, s: System, a: string, calls: seq<Call>)
    requires PendingOf(s, a) != [] && Consecutive(PendingOf(s, a))
    requires var ns := PendingOf(s, a); NothingExpires(c.pendingTTL, ns, ns[|ns| - 1].nonce, calls)
    ensures var ns := PendingOf(s, a);
      forall k :: 0 <= k < |calls| ==> Burst(c, s, a, calls).1[k] == ns[|ns| - 1].nonce + 1 + k
    decreases |calls|
  {
    hide NextNonce;
    if calls != [] {
      var ns, call := PendingOf(s, a), calls[0];
      var k := NextExtends(c, s, a, call);
      var (s1, n) := NextNonce(c, s, a, call.r1, call.now, call.r2);
      ExtensionLives(c.pendingTTL, ns, k, calls, n, PendingOf(s1, a));
      BurstIsConsecutive(c, s1, a, calls[1..]);
    }
  }

  /** The same for a burst that starts with an empty list. */
  lemma BurstFromEmpty(c: Config, s: System, a: string, calls: seq<Call>)
    requires calls != [] && PendingOf(s, a) == []
    requires var n := NextNonce(c, s, a, calls[0].r1, calls[0].now, calls[0].r2).1;
      && (forall j, k :: 0 <= j < k < |calls| ==> calls[k].now <= calls[j].now + c.pendingTTL)
      && (forall k :: 0 < k < |calls| ==> calls[k].r1.count <= calls[k].r2.count <= n + k)
    ensures var out := Burst(c, s, a, calls).1;
      forall k :: 0 <= k < |calls| ==> out[k] == out[0] + k
  {
    hide EncodeList, EncodeNonce, CurrentKey, PendingKey, Above, FirstExpired;
    var (s1, n) := NextNonce(c, s, a, calls[0].r1, calls[0].now, calls[0].r2);
    var ns := [Nonce(n, calls[0].now + c.pendingTTL)];
    assert PendingOf(s1, a) == ns;
    var rest := calls[1..];
    assert NothingExpires(c.pendingTTL, ns, n, rest) by {
      assert forall j :: 0 <= j < |rest| ==> rest[j] == calls[j + 1];
    }
    BurstIsConsecutive(c, s1, a, rest);
    assert Burst(c, s, a, calls).1 == [n] + Burst(c, s1, a, rest).1;
  }
}
