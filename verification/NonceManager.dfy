/** The objects of gateway/src/services/evm.nonce.ts and local-storage.ts: fields
    that the methods overwrite, pending entries whose expiry changes in place.
    Every method is tied to the step of `EvmNonce` it performs. */
module NonceManager {
  import opened Basics
  import opened Text
  import opened NonceStore
  import opened EvmNonce

  datatype Error = InitializationError | InvalidNonceError

  datatype Outcome = Pass | Fail(error: Error)

  datatype Result<+T> = Ok(value: T) | Err(error: Error)

  class LocalStorage {
    var entries: Store

    constructor ()
      ensures entries == map[]
    {
      entries := map[];
    }

    method Save(key: string, value: string)
      modifies this
      ensures entries == old(entries)[key := value]
    {
      entries := entries[key := value];
    }

    /** Whatever order the store is walked in, the result holds, under each
        address that some entry reads as, the reading of such an entry. */
    method Get<V>(readFunc: (string, string) -> Option<(string, V)>) returns (results: map<string, V>)
      ensures forall k :: k in entries && readFunc(k, entries[k]).Some? ==> readFunc(k, entries[k]).value.0 in results
      ensures forall a :: a in results ==> exists k :: k in entries && readFunc(k, entries[k]) == Some((a, results[a]))
    {
      results := map[];
      var rest := entries.Keys;
      while rest != {}
        invariant rest <= entries.Keys
        invariant forall k :: k in entries && k !in rest && readFunc(k, entries[k]).Some? ==>
          readFunc(k, entries[k]).value.0 in results
        invariant forall a :: a in results ==> exists k :: k in entries && readFunc(k, entries[k]) == Some((a, results[a]))
      {
        var key :| key in rest;
        rest := rest - {key};
        match readFunc(key, entries[key])
        case Some(data) => results := results[data.0 := data.1];
        case None =>
      }
    }
  }

  class NonceLocalStorage {
    const localStorage: LocalStorage

    constructor (localStorage: LocalStorage)
      ensures this.localStorage == localStorage
    {
      this.localStorage := localStorage;
    }

    method SaveCurrentNonce(c: Config, address: string, nonce: Nonce)
      modifies localStorage
      ensures localStorage.entries == old(localStorage.entries)[CurrentKey(c, address) := EncodeNonce(nonce)]
    {
      localStorage.Save(CurrentKey(c, address), EncodeNonce(nonce));
    }

    method GetCurrentNonces(c: Config) returns (nonces: map<string, Nonce>)
      ensures nonces == LoadCurrent(c, localStorage.entries)
    {
      hide ReadCurrent, CurrentKey;
      nonces := localStorage.Get((key, value) => ReadCurrent(c, key, value));
    }

    method SavePendingNonces(c: Config, address: string, nonces: seq<Nonce>)
      modifies localStorage
      ensures localStorage.entries == old(localStorage.entries)[PendingKey(c, address) := EncodeList(nonces)]
    {
      var value := "";
      for i := 0 to |nonces|
        invariant value == EncodeList(nonces[..i])
      {
        value := value + "," + EncodeNonce(nonces[i]);
        assert nonces[..i + 1][..i] == nonces[..i];
      }
      assert nonces[..|nonces|] == nonces;
      localStorage.Save(PendingKey(c, address), value);
    }

    method GetPendingNonces(c: Config) returns (nonces: map<string, seq<Nonce>>)
      ensures nonces == LoadPending(c, localStorage.entries)
    {
      hide ReadPending, PendingKey;
      nonces := localStorage.Get((key, value) => ReadPending(c, key, value));
    }
  }

  class NonceInfo {
    const nonce: int
    var expiry: int
    ghost const home: string    // the address it was made for

    constructor (nonce: int, expiry: int, ghost home: string)
      ensures this.nonce == nonce && this.expiry == expiry && this.home == home
    {
      this.nonce, this.expiry, this.home := nonce, expiry, home;
    }

    function Value(): Nonce
      reads this
    {
      Nonce(nonce, expiry)
    }
  }

  function Values(infos: seq<NonceInfo>): (ns: seq<Nonce>)
    reads infos
    ensures |ns| == |infos| && forall i :: 0 <= i < |infos| ==> ns[i] == infos[i].Value()
  {
    seq(|infos|, i requires 0 <= i < |infos| reads infos => infos[i].Value())
  }

  function KeepAbove(infos: seq<NonceInfo>, floor: int): (kept: seq<NonceInfo>)
    ensures forall x :: x in kept ==> x in infos
  {
    if infos == [] then []
    else (if infos[0].nonce > floor then [infos[0]] else []) + KeepAbove(infos[1..], floor)
  }

  predicate Distinct(infos: seq<NonceInfo>) { forall i, j :: 0 <= i < j < |infos| ==> infos[i] != infos[j] }

  lemma {:induction false} KeepAboveValues(infos: seq<NonceInfo>, floor: int)
    ensures Values(KeepAbove(infos, floor)) == Above(Values(infos), floor)
  {
    if infos != [] {
      KeepAboveValues(infos[1..], floor);
      assert Values(infos)[1..] == Values(infos[1..]);
      ValuesConcat(if infos[0].nonce > floor then [infos[0]] else [], KeepAbove(infos[1..], floor));
    }
  }

  lemma ValuesConcat(a: seq<NonceInfo>, b: seq<NonceInfo>)
    ensures Values(a + b) == Values(a) + Values(b)
  {
  }

  lemma {:induction false} KeepAboveDistinct(infos: seq<NonceInfo>, floor: int)
    requires Distinct(infos)
    ensures Distinct(KeepAbove(infos, floor))
  {
    if infos != [] {
      var tail := infos[1..];
      KeepAboveDistinct(tail, floor);
      assert forall i :: 0 <= i < |tail| ==> tail[i] == infos[i + 1] != infos[0];
      var kept := KeepAbove(tail, floor);
      forall i | 0 <= i < |kept| ensures kept[i] != infos[0] { assert kept[i] in tail; }
    }
  }

  /** Each of the addresses once, in some order, with what is observed for it. */
  ghost predicate Visits(visits: seq<(string, Reading)>, addresses: set<string>, observe: string -> Reading)
  {
    && (forall a :: a in addresses <==> (a, observe(a)) in visits)
    && (forall i :: 0 <= i < |visits| ==> visits[i].1 == observe(visits[i].0))
    && (forall i, j :: 0 <= i < j < |visits| ==> visits[i].0 != visits[j].0)
  }

  lemma NoVisits(observe: string -> Reading)
    ensures Visits([], {}, observe)
  {
  }

  lemma OneMoreVisit(visits: seq<(string, Reading)>, all: set<string>, rest: set<string>, observe: string -> Reading,
                     a: string)
    requires a in rest && rest <= all && Visits(visits, all - rest, observe)
    ensures Visits(visits + [(a, observe(a))], all - (rest - {a}), observe)
  {
    assert forall i :: 0 <= i < |visits| ==> visits[i] in visits && visits[i].0 != a;
  }

  lemma PutOne<V>(was: map<string, V>, all: map<string, V>, rest: set<string>, a: string)
    requires a in rest && rest <= all.Keys
    ensures (was + (all - rest))[a := all[a]] == was + (all - (rest - {a}))
  {
  }

  /** Fresh entries of one address for the nonces read from the store. */
  method NewInfos(address: string, nonces: seq<Nonce>) returns (infos: seq<NonceInfo>, ghost added: set<NonceInfo>)
    ensures fresh(added) && Distinct(infos) && Values(infos) == nonces
    ensures forall i :: 0 <= i < |infos| ==> infos[i] in added && infos[i].home == address
    ensures forall x :: x in added ==> x in infos
  {
    infos, added := [], {};
    for i := 0 to |nonces|
      invariant |infos| == i && Distinct(infos) && fresh(added)
      invariant forall x :: x in added ==> x in infos
      invariant forall j :: 0 <= j < i ==>
        infos[j] in added && infos[j].home == address && infos[j].Value() == nonces[j]
    {
      var info := new NonceInfo(nonces[i].nonce, nonces[i].expiry, address);
      infos, added := infos + [info], added + {info};
    }
    assert Values(infos) == nonces;
  }

  class EVMNonceManager {
    const cfg: Config
    const db: NonceLocalStorage
    var addressToNonce: map<string, NonceInfo>
    var addressToPendingNonces: map<string, seq<NonceInfo>>
    var initialized: bool
    var hasProvider: bool
    ghost var current: set<NonceInfo>           // the cached nonces' objects
    ghost var pending: set<NonceInfo>           // the pending entries' objects

    /** No pending entry is shared between lists or with a cached nonce, so an
        expiry that moves in place moves in one spot. */
    ghost predicate Valid()
      reads this
    {
      current !! pending && ValidCurrent() && ValidPending()
    }

    ghost predicate ValidCurrent()
      reads `addressToNonce, `current
    {
      forall a :: a in addressToNonce ==> addressToNonce[a] in current
    }

    ghost predicate ValidPending()
      reads `addressToPendingNonces, `pending
    {
      forall a :: a in addressToPendingNonces ==> Owned(addressToPendingNonces[a], a)
    }

    ghost predicate Owned(infos: seq<NonceInfo>, a: string)
      reads `pending
    {
      Distinct(infos) && forall i :: 0 <= i < |infos| ==> infos[i] in pending && infos[i].home == a
    }

    ghost function CurrentView(): map<string, Nonce>
      requires ValidCurrent()
      reads `addressToNonce, `current, current
    {
      map a | a in addressToNonce :: addressToNonce[a].Value()
    }

    ghost function PendingView(): map<string, seq<Nonce>>
      requires ValidPending()
      reads `addressToPendingNonces, `pending, pending
    {
      map a | a in addressToPendingNonces :: Values(addressToPendingNonces[a])
    }

    ghost function View(): System
      requires Valid()
      reads this, current, pending, db.localStorage
    {
      System(CurrentView(), PendingView(), db.localStorage.entries)
    }

    constructor (cfg: Config, db: NonceLocalStorage)
      ensures Valid() && this.cfg == cfg && this.db == db && !initialized && !hasProvider
      ensures View() == System(map[], map[], db.localStorage.entries)
      ensures current == {} && pending == {}
    {
      this.cfg, this.db := cfg, db;
      addressToNonce, addressToPendingNonces := map[], map[];
      initialized, hasProvider, current, pending := false, false, {}, {};
    }

    method Remember(address: string, nonce: Nonce)
      requires Valid()
      modifies `addressToNonce, `current
      ensures Valid() && pending == old(pending) && fresh(current - old(current))
      ensures CurrentView() == old(CurrentView())[address := nonce] && PendingView() == old(PendingView())
    {
      ghost var was := CurrentView();
      var info := new NonceInfo(nonce.nonce, nonce.expiry, address);
      current := current + {info};
      addressToNonce := addressToNonce[address := info];
      assert CurrentView() == was[address := nonce];
    }

    method RememberPending(address: string, nonces: seq<Nonce>)
      requires Valid()
      modifies `addressToPendingNonces, `pending
      ensures Valid() && current == old(current) && fresh(pending - old(pending))
      ensures PendingView() == old(PendingView())[address := nonces] && CurrentView() == old(CurrentView())
    {
      var infos, added := NewInfos(address, nonces);
      Relist(address, infos, added);
    }

    /** The in-memory cache and the store entry of one address. */
    method SetCurrent(address: string, nonce: int, expiry: int)
      requires Valid()
      modifies this, db.localStorage
      ensures Valid() && unchanged(`initialized) && unchanged(`hasProvider) && unchanged(`addressToPendingNonces)
      ensures pending == old(pending) && fresh(current - old(current))
      ensures View() == SaveCurrent(cfg, old(View()), address, Nonce(nonce, expiry))
    {
      hide CurrentKey, EncodeNonce;
      Remember(address, Nonce(nonce, expiry));
      ghost var was := View();
      db.SaveCurrentNonce(cfg, address, Nonce(nonce, expiry));
      assert PendingView() == was.pending && CurrentView() == was.current;
    }

    method Relist(address: string, infos: seq<NonceInfo>, ghost added: set<NonceInfo>)
      requires Valid() && Distinct(infos) && added !! current
      requires forall i :: 0 <= i < |infos| ==> infos[i] in pending + added && infos[i].home == address
      modifies `addressToPendingNonces, `pending
      ensures Valid() && pending == old(pending) + added && current == old(current)
      ensures PendingView() == old(PendingView())[address := Values(infos)] && CurrentView() == old(CurrentView())
    {
      ghost var was := PendingView();
      pending := pending + added;
      addressToPendingNonces := addressToPendingNonces[address := infos];
      assert PendingView() == was[address := Values(infos)];
    }

    /** The in-memory list and the store entry of one address; `added` are the
        entries made for it just now. */
    method SetPending(address: string, infos: seq<NonceInfo>, ghost added: set<NonceInfo>)
      requires Valid() && Distinct(infos) && added !! current
      requires forall i :: 0 <= i < |infos| ==> infos[i] in pending + added && infos[i].home == address
      modifies this, db.localStorage
      ensures Valid() && unchanged(`initialized) && unchanged(`hasProvider) && unchanged(`addressToNonce)
      ensures pending == old(pending) + added && current == old(current)
      ensures added == {} ==> pending == old(pending)
      ensures View() == SavePending(cfg, old(View()), address, old(Values(infos)))
    {
      hide PendingKey, EncodeList, Distinct;
      var values := Values(infos);
      Relist(address, infos, added);
      ghost var was := View();
      db.SavePendingNonces(cfg, address, values);
      assert CurrentView() == was.current && PendingView() == was.pending;
    }

    method LoadCurrentNonces()
      requires Valid()
      modifies `addressToNonce, `current
      ensures Valid() && pending == old(pending) && fresh(current - old(current))
      ensures CurrentView() == old(CurrentView()) + LoadCurrent(cfg, db.localStorage.entries)
      ensures PendingView() == old(PendingView())
    {
      hide LoadCurrent;
      ghost var was, lists := CurrentView(), PendingView();
      var nonces := db.GetCurrentNonces(cfg);
      var rest := nonces.Keys;
      while rest != {}
        invariant rest <= nonces.Keys && Valid() && pending == old(pending) && fresh(current - old(current))
        invariant CurrentView() == was + (nonces - rest) && PendingView() == lists
      {
        var a :| a in rest;
        Remember(a, nonces[a]);
        PutOne(was, nonces, rest, a);
        rest := rest - {a};
      }
      assert nonces - {} == nonces;
    }

    method LoadPendingNonces()
      requires Valid()
      modifies `addressToPendingNonces, `pending
      ensures Valid() && current == old(current) && fresh(pending - old(pending))
      ensures PendingView() == old(PendingView()) + LoadPending(cfg, db.localStorage.entries)
      ensures CurrentView() == old(CurrentView())
    {
      hide LoadPending;
      ghost var was, nonces := PendingView(), CurrentView();
      var lists := db.GetPendingNonces(cfg);
      var rest := lists.Keys;
      while rest != {}
        invariant rest <= lists.Keys && Valid() && current == old(current) && fresh(pending - old(pending))
        invariant PendingView() == was + (lists - rest) && CurrentView() == nonces
      {
        var a :| a in rest;
        RememberPending(a, lists[a]);
        PutOne(was, lists, rest, a);
        rest := rest - {a};
      }
      assert lists - {} == lists;
    }

    method LoadFromStore()
      requires Valid()
      modifies this
      ensures Valid() && unchanged(`initialized) && unchanged(`hasProvider)
      ensures fresh(current - old(current)) && fresh(pending - old(pending))
      ensures View() == AfterLoad(cfg, old(View()))
    {
      hide LoadCurrent, LoadPending;
      LoadCurrentNonces();
      LoadPendingNonces();
    }

    /** Merges every known address, in whatever order; `visits` is that order. */
    method MergeKnown(observe: string -> Reading) returns (ghost visits: seq<(string, Reading)>)
      requires Valid() && hasProvider
      modifies this, db.localStorage
      ensures Valid() && unchanged(`initialized) && unchanged(`hasProvider)
      ensures pending == old(pending) && fresh(current - old(current))
      ensures Visits(visits, old(View()).current.Keys, observe)
      ensures View() == MergeEach(cfg, old(View()), visits)
    {
      hide Merge, Visits;
      visits := [];
      NoVisits(observe);
      var rest := addressToNonce.Keys;
      assert rest - rest == {} && View().current.Keys == rest - {};
      while rest != {}
        invariant rest <= old(addressToNonce.Keys) && Valid() && unchanged(`initialized) && unchanged(`hasProvider)
        invariant pending == old(pending) && fresh(current - old(current))
        invariant Visits(visits, old(addressToNonce.Keys) - rest, observe)
        invariant View() == MergeEach(cfg, old(View()), visits)
      {
        var a :| a in rest;
        ghost var front := visits;
        OneMoreVisit(front, old(addressToNonce.Keys), rest, observe, a);
        var merged := MergeNonceFromEVMNode(a, true, observe(a));
        rest := rest - {a};
        visits := visits + [(a, observe(a))];
        assert visits[..|visits| - 1] == front;
      }
    }

    method FirstInit(observe: string -> Reading) returns (ghost visits: seq<(string, Reading)>)
      requires Valid() && hasProvider
      modifies this, db.localStorage
      ensures Valid() && initialized && hasProvider
      ensures fresh(current - old(current)) && fresh(pending - old(pending))
      ensures View() == MergeEach(cfg, AfterLoad(cfg, old(View())), visits)
      ensures Visits(visits, AfterLoad(cfg, old(View())).current.Keys, observe)
    {
      hide AfterLoad, MergeEach, Visits;
      LoadFromStore();
      visits := MergeKnown(observe);
      ghost var merged := View();
      initialized := true;
      assert CurrentView() == merged.current && PendingView() == merged.pending;
    }

    lemma NewProcess()
      requires Valid() && addressToNonce == map[] && addressToPendingNonces == map[]
      ensures AfterLoad(cfg, View()) == Reload(cfg, View())
    {
      hide AfterLoad, Reload;
      assert CurrentView() == map[] && PendingView() == map[];
      AfterLoadOfNewProcess(cfg, View().db);
    }

    /** The first successful call loads the store and merges; later ones change
        nothing but the provider slot. With an empty memory, as in a new process,
        the first call is the restart step of the run model. */
    method Init(observe: string -> Reading) returns (out: Outcome, ghost visits: seq<(string, Reading)>)
      requires Valid()
      modifies this, db.localStorage
      ensures Valid() && fresh(current - old(current)) && fresh(pending - old(pending))
      ensures out == if cfg.localTTL < 0 || cfg.pendingTTL < 0 then Fail(InitializationError) else Pass
      ensures out.Fail? || old(initialized) ==> View() == old(View()) && initialized == old(initialized)
      ensures out.Pass? ==> initialized && hasProvider
      ensures out.Pass? && !old(initialized) ==>
        var loaded := AfterLoad(cfg, old(View()));
        View() == MergeEach(cfg, loaded, visits) && Visits(visits, loaded.current.Keys, observe)
      ensures out.Pass? && !old(initialized) && old(addressToNonce) == map[] && old(addressToPendingNonces) == map[] ==>
        View() == Step(cfg, old(View()), OpRestart(visits))
    {
      hide AfterLoad, MergeEach, Visits, Reload;
      if addressToNonce == map[] && addressToPendingNonces == map[] { NewProcess(); }
      visits := [];
      if cfg.localTTL < 0 || cfg.pendingTTL < 0 { return Fail(InitializationError), []; }
      ghost var was := View();
      hasProvider := true;
      assert CurrentView() == was.current && PendingView() == was.pending;
      if !initialized { visits := FirstInit(observe); }
      out := Pass;
    }

    /** Drops the entries the node has confirmed. */
    method Prune(ethAddress: string, externalNonce: int)
      requires Valid() && PendingOf(View(), ethAddress) != []
      modifies this, db.localStorage
      ensures Valid() && unchanged(`initialized) && unchanged(`hasProvider)
      ensures pending == old(pending) && current == old(current)
      ensures View() == SavePending(cfg, old(View()), ethAddress, Above(PendingOf(old(View()), ethAddress), externalNonce))
    {
      hide PendingKey, EncodeList, SavePending, Distinct, Above, KeepAbove;
      var infos := addressToPendingNonces[ethAddress];
      assert PendingOf(View(), ethAddress) == Values(infos);
      KeepAboveValues(infos, externalNonce);
      KeepAboveDistinct(infos, externalNonce);
      var kept := KeepAbove(infos, externalNonce);
      assert forall i :: 0 <= i < |kept| ==> kept[i] in infos;
      SetPending(ethAddress, kept, {});
    }

    /** The node's answer replaces the cached nonce and prunes the list. */
    method Refresh(ethAddress: string, r: Reading)
      requires Valid() && Refreshes(View(), ethAddress, r)
      modifies this, db.localStorage
      ensures Valid() && unchanged(`initialized) && unchanged(`hasProvider)
      ensures pending == old(pending) && fresh(current - old(current))
      ensures View() == Merge(cfg, old(View()), ethAddress, r)
    {
      hide CurrentKey, PendingKey, EncodeNonce, EncodeList, Above, LoadCurrent, LoadPending, Merge, SavePending, Distinct;
      var externalNonce := r.count - 1;
      MergeParts(cfg, View(), ethAddress, r);
      SetCurrent(ethAddress, externalNonce, r.now + cfg.localTTL);
      if ethAddress in addressToPendingNonces && |addressToPendingNonces[ethAddress]| > 0 {
        assert PendingOf(View(), ethAddress) == Values(addressToPendingNonces[ethAddress]);
        Prune(ethAddress, externalNonce);
      } else {
        assert PendingOf(View(), ethAddress) == [];
      }
    }

    method MergeNonceFromEVMNode(ethAddress: string, initializationPhase: bool, r: Reading) returns (out: Outcome)
      requires Valid()
      modifies this, db.localStorage
      ensures Valid() && unchanged(`initialized) && unchanged(`hasProvider)
      ensures pending == old(pending) && fresh(current - old(current))
      ensures out == if hasProvider && (initializationPhase || initialized) then Pass else Fail(InitializationError)
      ensures View() == if out.Pass? then Merge(cfg, old(View()), ethAddress, r) else old(View())
    {
      hide CurrentKey, PendingKey, EncodeNonce, EncodeList;
      if !hasProvider || !(initializationPhase || initialized) { return Fail(InitializationError); }
      var mergeExpiryTimestamp := if ethAddress in addressToNonce then addressToNonce[ethAddress].expiry else -1;
      if mergeExpiryTimestamp > r.now { return Pass; }
      Refresh(ethAddress, r);
      out := Pass;
    }

    method GetNonceFromMemory(ethAddress: string, r: Reading) returns (out: Result<Option<int>>)
      requires Valid()
      modifies this, db.localStorage
      ensures Valid() && unchanged(`initialized) && unchanged(`hasProvider)
      ensures pending == old(pending) && fresh(current - old(current))
      ensures ethAddress !in old(addressToNonce) || !initialized || !hasProvider ==> View() == old(View())
      ensures initialized && hasProvider && ethAddress in old(addressToNonce) ==>
        View() == Merge(cfg, old(View()), ethAddress, r)
      ensures out == if !initialized then Err(InitializationError)
                     else if ethAddress !in old(addressToNonce) then Ok(None)
                     else if !hasProvider then Err(InitializationError)
                     else Ok(Some(View().current[ethAddress].nonce))
    {
      if !initialized { return Err(InitializationError); }
      if ethAddress !in addressToNonce { return Ok(None); }
      var merged := MergeNonceFromEVMNode(ethAddress, false, r);
      if merged.Fail? { return Err(merged.error); }
      assert ethAddress in View().current;
      out := Ok(Some(addressToNonce[ethAddress].nonce));
    }

    method GetNonceFromNode(ethAddress: string, r: Reading) returns (out: Result<int>)
      requires Valid()
      modifies this, db.localStorage
      ensures Valid() && unchanged(`initialized) && unchanged(`hasProvider)
      ensures pending == old(pending) && fresh(current - old(current))
      ensures out == if initialized && hasProvider then Ok(r.count - 1) else Err(InitializationError)
      ensures View() == if out.Ok? then FromNode(cfg, old(View()), ethAddress, r) else old(View())
    {
      if !initialized || !hasProvider { return Err(InitializationError); }
      var externalNonce := r.count - 1;
      SetCurrent(ethAddress, externalNonce, r.now + cfg.pendingTTL);
      out := Ok(externalNonce);
    }

    method GetNonce(ethAddress: string, r: Reading) returns (out: Result<int>)
      requires Valid()
      modifies this, db.localStorage
      ensures Valid() && unchanged(`initialized) && unchanged(`hasProvider)
      ensures pending == old(pending) && fresh(current - old(current))
      ensures out.Ok? <==> initialized && hasProvider
      ensures out.Err? ==> out.error == InitializationError && View() == old(View())
      ensures out.Ok? ==> View() == EvmNonce.GetNonce(cfg, old(View()), ethAddress, r)
      ensures out.Ok? ==> out.value == View().current[ethAddress].nonce
    {
      var known := ethAddress in addressToNonce;
      var nonce := GetNonceFromMemory(ethAddress, r);
      match nonce
      case Err(e) => out := Err(e);
      case Ok(Some(n)) => out := Ok(n);
      case Ok(None) => out := GetNonceFromNode(ethAddress, r);
    }

    /** The scan for the first expired entry. */
    method FindExpired(infos: seq<NonceInfo>, now: nat) returns (k: nat)
      ensures k == FirstExpired(Values(infos), now)
    {
      k := 0;
      while k < |infos| && now <= infos[k].expiry
        invariant k <= |infos|
        invariant FirstExpired(Values(infos), now) == k + FirstExpired(Values(infos)[k..], now)
      {
        assert Values(infos)[k..][1..] == Values(infos)[k + 1..];
        k := k + 1;
      }
    }

    /** An expired entry gets a new expiry, in place, and its nonce goes out again. */
    method Reuse(ethAddress: string, k: nat, expiry: int) returns (nonce: int)
      requires Valid() && ethAddress in addressToPendingNonces && k < |addressToPendingNonces[ethAddress]|
      modifies this, db.localStorage, pending
      ensures Valid() && unchanged(`initialized) && unchanged(`hasProvider)
      ensures current == old(current) && pending == old(pending)
      ensures nonce == PendingOf(old(View()), ethAddress)[k].nonce
      ensures View() == SavePending(cfg, old(View()), ethAddress,
        PendingOf(old(View()), ethAddress)[k := Nonce(nonce, expiry)])
    {
      hide CurrentKey, PendingKey, EncodeNonce, EncodeList;
      ghost var was := View();
      var infos := addressToPendingNonces[ethAddress];
      ghost var ns := Values(infos);
      infos[k].expiry := expiry;
      nonce := infos[k].nonce;
      assert Values(infos) == ns[k := Nonce(nonce, expiry)];
      assert CurrentView() == was.current;
      assert PendingView() == was.pending[ethAddress := Values(infos)] by {
        forall b | b in addressToPendingNonces && b != ethAddress ensures PendingView()[b] == was.pending[b] {
          assert forall x :: x in addressToPendingNonces[b] ==> x.home == b && x != infos[k];
        }
      }
      SetPending(ethAddress, infos, {});
    }

    /** The list of an address becomes `infos` and one new entry. */
    method Put(ethAddress: string, infos: seq<NonceInfo>, nonce: int, expiry: int)
      requires Valid() && Owned(infos, ethAddress)
      modifies this, db.localStorage
      ensures Valid() && unchanged(`initialized) && unchanged(`hasProvider)
      ensures current == old(current) && fresh(pending - old(pending))
      ensures View() == SavePending(cfg, old(View()), ethAddress, old(Values(infos)) + [Nonce(nonce, expiry)])
    {
      hide CurrentKey, PendingKey, EncodeNonce, EncodeList;
      ghost var was := View();
      var info := new NonceInfo(nonce, expiry, ethAddress);
      assert Values(infos + [info]) == old(Values(infos)) + [Nonce(nonce, expiry)];
      assert View() == was;
      SetPending(ethAddress, infos + [info], {info});
    }

    /** The list is live: the first expired entry again, else the next nonce. */
    method IssueFromList(ethAddress: string, now: nat) returns (nonce: int)
      requires Valid() && PendingOf(View(), ethAddress) != []
      modifies this, db.localStorage, pending
      ensures Valid() && unchanged(`initialized) && unchanged(`hasProvider)
      ensures current == old(current) && fresh(pending - old(pending))
      ensures (View(), nonce) == FromList(cfg, old(View()), ethAddress, now)
    {
      hide SavePending, FirstExpired;
      var infos := addressToPendingNonces[ethAddress];
      assert PendingOf(View(), ethAddress) == Values(infos);
      var k := FindExpired(infos, now);
      if k < |infos| {
        nonce := Reuse(ethAddress, k, now + cfg.pendingTTL);
      } else {
        nonce := infos[|infos| - 1].nonce + 1;
        Put(ethAddress, infos, nonce, now + cfg.pendingTTL);
      }
    }

    /** The part of getNextNonce after its merge. */
    method Issue(ethAddress: string, now: nat, r2: Reading) returns (nonce: int)
      requires Valid() && initialized && hasProvider
      modifies this, db.localStorage, pending
      ensures Valid() && unchanged(`initialized) && unchanged(`hasProvider)
      ensures fresh(pending - old(pending)) && fresh(current - old(current))
      ensures (View(), nonce) == AfterMerge(cfg, old(View()), ethAddress, now, r2)
    {
      hide SavePending, EvmNonce.GetNonce, FromList;
      if ethAddress in addressToPendingNonces && |addressToPendingNonces[ethAddress]| > 0 {
        assert PendingOf(View(), ethAddress) == Values(addressToPendingNonces[ethAddress]);
        nonce := IssueFromList(ethAddress, now);
      } else {
        assert PendingOf(View(), ethAddress) == [];
        var n := GetNonce(ethAddress, r2);
        nonce := n.value + 1;
        assert Values([]) + [Nonce(nonce, now + cfg.pendingTTL)] == [Nonce(nonce, now + cfg.pendingTTL)];
        Put(ethAddress, [], nonce, now + cfg.pendingTTL);
      }
    }

    method GetNextNonce(ethAddress: string, r1: Reading, now: nat, r2: Reading) returns (out: Result<int>)
      requires Valid()
      modifies this, db.localStorage, pending
      ensures Valid() && unchanged(`initialized) && unchanged(`hasProvider)
      ensures fresh(pending - old(pending)) && fresh(current - old(current))
      ensures out == if initialized && hasProvider then Ok(NextNonce(cfg, old(View()), ethAddress, r1, now, r2).1)
                     else Err(InitializationError)
      ensures View() == if out.Ok? then NextNonce(cfg, old(View()), ethAddress, r1, now, r2).0 else old(View())
    {
      hide Merge, AfterMerge;
      if !initialized { return Err(InitializationError); }
      var merged := MergeNonceFromEVMNode(ethAddress, false, r1);
      if merged.Fail? { return Err(merged.error); }
      var nonce := Issue(ethAddress, now, r2);
      out := Ok(nonce);
    }

    /** Refused, and nothing changes, unless the nonce moves forward; an equal
        nonce is refused too. */
    method CommitNonce(ethAddress: string, txNonce: int, now: nat) returns (out: Outcome)
      requires Valid()
      modifies this, db.localStorage
      ensures Valid() && unchanged(`initialized) && unchanged(`hasProvider)
      ensures pending == old(pending) && fresh(current - old(current))
      ensures out == if !initialized then Fail(InitializationError)
                     else if CommitAccepted(old(View()), ethAddress, txNonce) then Pass
                     else Fail(InvalidNonceError)
      ensures View() == if initialized then Commit(cfg, old(View()), ethAddress, now, txNonce) else old(View())
    {
      if !initialized { return Fail(InitializationError); }
      if ethAddress in addressToNonce && txNonce <= addressToNonce[ethAddress].nonce {
        return Fail(InvalidNonceError);
      }
      SetCurrent(ethAddress, txNonce, now + cfg.localTTL);
      out := Pass;
    }

    /** The check reserves the nonce it compares with. */
    method IsValidNonce(ethAddress: string, nonce: int, r1: Reading, now: nat, r2: Reading) returns (out: Result<bool>)
      requires Valid()
      modifies this, db.localStorage, pending
      ensures Valid()
      ensures initialized && hasProvider ==>
        var (s', n) := NextNonce(cfg, old(View()), ethAddress, r1, now, r2);
        out == Ok(nonce == n) && View() == s'
      ensures !(initialized && hasProvider) ==> out == Err(InitializationError) && View() == old(View())
    {
      var expected := GetNextNonce(ethAddress, r1, now, r2);
      match expected
      case Err(e) => out := Err(e);
      case Ok(n) => out := Ok(nonce == n);
    }
  }
}
