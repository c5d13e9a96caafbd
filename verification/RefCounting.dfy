/** Shared objects closed by reference counting
    (gateway/src/services/refcounting-closeable.ts) and the ownership cascade
    EthereumBase -> EVMNonceManager -> NonceLocalStorage -> LocalStorage,
    EthereumBase -> EvmTxStorage -> LocalStorage. */
module RefCounting {

  /** Every closeable object is named by its own random handle. */
  type Handle = nat

  /** The two classes that own a LocalStorage: NonceLocalStorage and EvmTxStorage. */
  datatype Kind = Nonces | Txs

  datatype Pair<T> = Pair(nonces: T, txs: T) {
    function At(kind: Kind): T { if kind == Nonces then nonces else txs }
  }

  /** `${class}/${retrievalKey}` */
  datatype FullKey = StorageKey(path: string) | StoreKey(kind: Kind, path: string) | ManagerKey(key: string)

  /** What an object keeps from its construction. */
  datatype Object = LocalStorage(path: string) | Store(kind: Kind, path: string, storage: Handle)

  datatype State = State(
    retrieval: map<FullKey, Handle>,
    refCounts: map<FullKey, set<Handle>>,
    objects: map<Handle, Object>,
    openDbs: set<Handle>,            // LocalStorage objects whose database is open
    next: Handle)                    // every handle in use is below it

  function Owners(s: State, k: FullKey): set<Handle> { if k in s.refCounts then s.refCounts[k] else {} }

  // ---- getInstance, declareOwnership, close -------------------------------

  function AddOwner(s: State, k: FullKey, owner: Handle): State
  {
    s.(refCounts := s.refCounts[k := Owners(s, k) + {owner}])
  }

  function DeclareOwnership(s: State, k: FullKey, self: Handle, owner: Handle): State
  {
    AddOwner(if k in s.retrieval then s else s.(retrieval := s.retrieval[k := self]), k, owner)
  }

  /** close() of the base class. */
  function Disown(s: State, k: FullKey, owner: Handle): (s': State)
    ensures s'.next == s.next
  {
    if k !in s.retrieval then s
    else if Owners(s, k) - {owner} == {} then s.(refCounts := s.refCounts - {k}, retrieval := s.retrieval - {k})
    else s.(refCounts := s.refCounts[k := Owners(s, k) - {owner}])
  }

  function Register(s: State, k: FullKey, self: Handle, made: Object, owner: Handle): State
  {
    s.(retrieval := s.retrieval[k := self], refCounts := s.refCounts[k := {owner}], objects := s.objects[self := made])
  }

  function GetStorage(s: State, path: string, owner: Handle): (State, Handle)
  {
    var k := StorageKey(path);
    if k in s.retrieval then (AddOwner(s, k, owner), s.retrieval[k])
    else (Register(s, k, s.next, LocalStorage(path), owner).(openDbs := s.openDbs + {s.next}, next := s.next + 1), s.next)
  }

  function GetStore(s: State, kind: Kind, path: string, owner: Handle): (State, Handle)
  {
    var k := StoreKey(kind, path);
    if k in s.retrieval then (AddOwner(s, k, owner), s.retrieval[k])
    else
      var self := s.next;
      var (s1, storage) := GetStorage(s.(next := s.next + 1), path, self);
      (Register(s1, k, self, Store(kind, path, storage), owner), self)
  }

  function CloseStorage(s: State, self: Handle, path: string, owner: Handle): (s': State)
    ensures s'.next == s.next
  {
    var s1 := Disown(s, StorageKey(path), owner);
    if Owners(s1, StorageKey(path)) == {} then s1.(openDbs := s1.openDbs - {self}) else s1
  }

  function CloseStore(s: State, kind: Kind, self: Handle, path: string, storage: Handle, owner: Handle): (s': State)
    ensures s'.next == s.next
  {
    var s1 := Disown(s, StoreKey(kind, path), owner);
    if Owners(s1, StoreKey(kind, path)) == {} then CloseStorage(s1, storage, path, self) else s1
  }

  /** One EthereumBase. If its handle is `b`, its manager's handle is `b + 1`. */
  datatype Base = Base(key: string, paths: Pair<string>, stores: Pair<Handle>, dbs: Pair<Handle>)

  /** The manager owns the nonce store, the EthereumBase itself the other one. */
  function OwnerHandle(kind: Kind, b: Handle): Handle { if kind == Nonces then b + 1 else b }

  function CloseOwn(s: State, kind: Kind, b: Handle, base: Base): (s': State)
    ensures s'.next == s.next
  {
    CloseStore(s, kind, base.stores.At(kind), base.paths.At(kind), base.dbs.At(kind), OwnerHandle(kind, b))
  }

  function CloseManager(s: State, b: Handle, base: Base): (s': State)
    ensures s'.next == s.next
  {
    var s1 := Disown(s, ManagerKey(base.key), b);
    if Owners(s1, ManagerKey(base.key)) == {} then CloseOwn(s1, Nonces, b, base) else s1
  }

  /** EthereumBase.close() */
  function CloseBase(s: State, b: Handle, base: Base): (s': State)
    ensures s'.next == s.next
  {
    CloseOwn(CloseManager(s, b, base), Txs, b, base)
  }

  lemma CloseBaseIs(s: State, b: Handle, base: Base)
    ensures CloseBase(s, b, base) == CloseOwn(CloseManager(s, b, base), Txs, b, base)
  {
  }

  function StorageOf(s: State, h: Handle): Handle
  {
    if h in s.objects && s.objects[h].Store? then s.objects[h].storage else h
  }

  /** The EthereumBase constructor. */
  function OpenBase(s: State, key: string, paths: Pair<string>): (State, Handle, Base)
  {
    var b := s.next;
    var (s1, nonces) := GetStore(s.(next := b + 2), Nonces, paths.nonces, OwnerHandle(Nonces, b));
    var s2 := DeclareOwnership(s1, ManagerKey(key), b + 1, b);
    var (s3, txs) := GetStore(s2, Txs, paths.txs, OwnerHandle(Txs, b));
    var s4 := DeclareOwnership(s3, StoreKey(Txs, paths.txs), txs, b);
    (s4, b, Base(key, paths, Pair(nonces, txs), Pair(StorageOf(s4, nonces), StorageOf(s4, txs))))
  }

  // ---- what holds between the calls --------------------------------------

  /** Which objects hold on to what: `managers` those counted on their manager's
      key, `stores.At(kind)` those with a claim on their store of that kind. */
  datatype Claims = Claims(managers: set<Handle>, stores: Pair<set<Handle>>)

  /** The two maps name the same keys, no key is kept without an owner, every
      handle in use is taken. */
  ghost predicate Tidy(s: State)
  {
    && s.retrieval.Keys == s.refCounts.Keys
    && (forall k :: k in s.refCounts ==> s.refCounts[k] != {})
    && (forall h :: h in s.objects ==> h < s.next)
  }

  predicate IsAt(s: State, k: FullKey, h: Handle) { k in s.retrieval && s.retrieval[k] == h }

  ghost predicate StoragesTyped(s: State)
  {
    forall p, h :: IsAt(s, StorageKey(p), h) ==> h in s.objects && s.objects[h] == LocalStorage(p)
  }

  /** A registered store stands under its own key and owns the registered
      database of its path. */
  ghost predicate StoresLinked(s: State)
  {
    forall kind, p, h :: IsAt(s, StoreKey(kind, p), h) ==>
      h in s.objects && s.objects[h].Store? && s.objects[h].kind == kind && s.objects[h].path == p
      && IsAt(s, StorageKey(p), s.objects[h].storage)
  }

  /** A database has no owners but the registered stores of its path. */
  ghost predicate OwnersExact(s: State)
  {
    forall p, h :: h in Owners(s, StorageKey(p)) <==> IsAt(s, StoreKey(Nonces, p), h) || IsAt(s, StoreKey(Txs, p), h)
  }

  ghost predicate Linked(s: State) { StoragesTyped(s) && StoresLinked(s) && OwnersExact(s) }

  /** Exactly the registered databases are open. */
  ghost predicate OpenIsRegistered(s: State)
  {
    && (forall p, h :: IsAt(s, StorageKey(p), h) ==> h in s.openDbs)
    && (forall h :: h in s.openDbs ==>
          h in s.objects && s.objects[h].LocalStorage? && IsAt(s, StorageKey(s.objects[h].path), h))
  }

  /** What an object remembers of its own two stores, however stale. */
  ghost predicate Remembers(s: State, base: Base)
  {
    forall kind ::
      var h, db := base.stores.At(kind), base.dbs.At(kind);
      && h in s.objects && s.objects[h] == Store(kind, base.paths.At(kind), db)
      && db in s.objects && s.objects[db] == LocalStorage(base.paths.At(kind))
  }

  ghost predicate Claimed(bases: map<Handle, Base>, held: set<Handle>, kind: Kind, p: string, b: Handle)
  {
    b in held && b in bases && bases[b].paths.At(kind) == p
  }

  ghost predicate StoresCounted(s: State, bases: map<Handle, Base>, c: Claims)
  {
    && (forall kind, p, b ::
          && (OwnerHandle(kind, b) in Owners(s, StoreKey(kind, p)) <==> Claimed(bases, c.stores.At(kind), kind, p, b))
          && (Claimed(bases, c.stores.At(kind), kind, p, b) ==> IsAt(s, StoreKey(kind, p), bases[b].stores.At(kind))))
    && (forall p :: 0 !in Owners(s, StoreKey(Nonces, p)))
  }

  ghost predicate ManagersCounted(s: State, bases: map<Handle, Base>, c: Claims)
  {
    forall k, b ::
      b in Owners(s, ManagerKey(k)) <==> b in c.managers && b in bases && bases[b].key == k
  }

  /** `settled` are the objects whose constructor has finished. */
  ghost predicate Inv(s: State, bases: map<Handle, Base>, settled: set<Handle>, c: Claims)
  {
    && Tidy(s) && Linked(s) && OpenIsRegistered(s) && StoresCounted(s, bases, c) && ManagersCounted(s, bases, c)
    && (forall b :: b in settled ==> b in bases && Remembers(s, bases[b]))
  }

  /** Outside `k`, and in everything but the two maps, nothing differs. */
  ghost predicate SameBut(s: State, s': State, k: FullKey)
  {
    && s'.objects == s.objects && s'.openDbs == s.openDbs && s'.next == s.next
    && (forall k' :: k' != k ==> Owners(s', k') == Owners(s, k'))
    && (forall k', h :: k' != k ==> (IsAt(s', k', h) <==> IsAt(s, k', h)))
  }

  lemma DisownEffect(s: State, k: FullKey, o: Handle)
    requires Tidy(s)
    ensures var s' := Disown(s, k, o);
      && Tidy(s') && SameBut(s, s', k) && Owners(s', k) == Owners(s, k) - {o}
      && (forall h :: IsAt(s', k, h) <==> IsAt(s, k, h) && Owners(s, k) - {o} != {})
    ensures o !in Owners(s, k) ==> Disown(s, k, o) == s
  {
    if o !in Owners(s, k) && k in s.retrieval {
      assert Owners(s, k) - {o} == Owners(s, k);
      assert s.refCounts[k := s.refCounts[k]] == s.refCounts;
    }
  }

  lemma DisownManagerKeeps(s: State, bases: map<Handle, Base>, settled: set<Handle>, c: Claims, b: Handle)
    requires Inv(s, bases, settled, c) && b in settled
    ensures Inv(Disown(s, ManagerKey(bases[b].key), b), bases, settled, c.(managers := c.managers - {b}))
  {
    hide Disown;
    DisownEffect(s, ManagerKey(bases[b].key), b);
    var s' := Disown(s, ManagerKey(bases[b].key), b);
    assert Linked(s') by { assert forall p, h :: IsAt(s', StorageKey(p), h) <==> IsAt(s, StorageKey(p), h); }
  }

  ghost predicate LosesStore(s0: State, s: State, kind: Kind, p: string, self: Handle, db: Handle)
  {
    && Tidy(s0) && Linked(s0) && OpenIsRegistered(s0)
    && IsAt(s0, StoreKey(kind, p), self) && s0.objects[self] == Store(kind, p, db)
    && Tidy(s) && SameBut(s0, s, StoreKey(kind, p)) && forall h :: !IsAt(s, StoreKey(kind, p), h)
  }

  lemma LastClaimOwners(s0: State, s: State, s': State, kind: Kind, p: string, self: Handle, db: Handle)
    requires LosesStore(s0, s, kind, p, self, db)
    requires SameBut(s, s', StorageKey(p)) && Owners(s', StorageKey(p)) == Owners(s, StorageKey(p)) - {self}
    ensures OwnersExact(s')
  {
    hide Tidy, StoragesTyped, OpenIsRegistered, Owners;
    forall q, h ensures h in Owners(s', StorageKey(q)) <==> IsAt(s', StoreKey(Nonces, q), h) || IsAt(s', StoreKey(Txs, q), h) {
      assert h in Owners(s0, StorageKey(q)) <==> IsAt(s0, StoreKey(Nonces, q), h) || IsAt(s0, StoreKey(Txs, q), h);
      assert Owners(s, StorageKey(q)) == Owners(s0, StorageKey(q));
      forall kd: Kind ensures IsAt(s', StoreKey(kd, q), h) <==> IsAt(s0, StoreKey(kd, q), h) && (kd != kind || q != p) {
        assert IsAt(s', StoreKey(kd, q), h) <==> IsAt(s, StoreKey(kd, q), h);
      }
      if h == self {
        forall kd: Kind ensures IsAt(s0, StoreKey(kd, q), h) ==> kd == kind && q == p { }
      }
    }
  }

  lemma SameOwners(s: State, s': State)
    requires OwnersExact(s) && s'.retrieval == s.retrieval && s'.refCounts == s.refCounts
    ensures OwnersExact(s')
  {
    forall p, h ensures h in Owners(s', StorageKey(p)) <==> IsAt(s', StoreKey(Nonces, p), h) || IsAt(s', StoreKey(Txs, p), h) {
      assert h in Owners(s, StorageKey(p)) <==> IsAt(s, StoreKey(Nonces, p), h) || IsAt(s, StoreKey(Txs, p), h);
    }
  }

  /** The last claim on a store goes: its claim on the database goes too ... */
  lemma LastClaim(s0: State, s: State, kind: Kind, p: string, self: Handle, db: Handle)
    requires LosesStore(s0, s, kind, p, self, db)
    ensures var s' := CloseStorage(s, db, p, self);
      && Tidy(s') && StoragesTyped(s') && OwnersExact(s') && s'.objects == s.objects && s'.next == s.next
      && (forall k: FullKey :: !k.StorageKey? ==> Owners(s', k) == Owners(s, k))
      && (forall k: FullKey, h :: !k.StorageKey? ==> (IsAt(s', k, h) <==> IsAt(s, k, h)))
  {
    hide Disown;
    DisownEffect(s, StorageKey(p), self);
    var s' := CloseStorage(s, db, p, self);
    var s1 := Disown(s, StorageKey(p), self);
    LastClaimOwners(s0, s, s1, kind, p, self, db);
    assert s'.retrieval == s1.retrieval && s'.refCounts == s1.refCounts;
    assert OwnersExact(s') by { SameOwners(s1, s'); }
    hide OwnersExact;
    forall q, h | IsAt(s', StorageKey(q), h) ensures h in s'.objects && s'.objects[h] == LocalStorage(q) {
      assert IsAt(s0, StorageKey(q), h);
    }
  }

  lemma LastClaimLinks(s0: State, s: State, kind: Kind, p: string, self: Handle, db: Handle)
    requires LosesStore(s0, s, kind, p, self, db)
    ensures StoresLinked(CloseStorage(s, db, p, self))
  {
    hide Disown;
    var k := StorageKey(p);
    DisownEffect(s, k, self);
    var s' := CloseStorage(s, db, p, self);
    forall kd, q, h | IsAt(s', StoreKey(kd, q), h)
      ensures h in s'.objects && s'.objects[h].Store? && s'.objects[h].kind == kd && s'.objects[h].path == q
        && IsAt(s', StorageKey(q), s'.objects[h].storage)
    {
      assert IsAt(s0, StoreKey(kd, q), h);
      assert IsAt(s0, StorageKey(q), s0.objects[h].storage);
      if q == p {
        assert kd != kind;
        assert s0.objects[h].kind == kd && s0.objects[self].kind == kind;
        assert h in Owners(s0, k) && Owners(s, k) == Owners(s0, k);
        assert h in Owners(s, k) - {self};
      }
    }
  }

  /** ... and the database closes exactly if the other store there does not own it. */
  lemma LastClaimCloses(s0: State, s: State, kind: Kind, p: string, self: Handle, db: Handle)
    requires LosesStore(s0, s, kind, p, self, db)
    ensures OpenIsRegistered(CloseStorage(s, db, p, self))
  {
    hide Disown;
    var k := StorageKey(p);
    DisownEffect(s, k, self);
    var s' := CloseStorage(s, db, p, self);
    assert IsAt(s0, k, db);
    forall q, h | IsAt(s', StorageKey(q), h) ensures h in s'.openDbs {
      assert IsAt(s0, StorageKey(q), h) && s0.objects[h] == LocalStorage(q) && s0.objects[db] == LocalStorage(p);
    }
    forall h | h in s'.openDbs
      ensures h in s'.objects && s'.objects[h].LocalStorage? && IsAt(s', StorageKey(s'.objects[h].path), h)
    {
      var q := s0.objects[h].path;
      assert IsAt(s0, StorageKey(q), h);
      if q == p { assert h == db; }
    }
  }

  /** Claims that are gone are not given up twice: nothing moves. */
  lemma StaleClose(s: State, bases: map<Handle, Base>, settled: set<Handle>, c: Claims, kind: Kind, b: Handle)
    requires Inv(s, bases, settled, c) && b in settled && b !in c.stores.At(kind)
    ensures CloseOwn(s, kind, b, bases[b]) == s
  {
    hide Disown;
    var base := bases[b];
    var p, o, self, db := base.paths.At(kind), OwnerHandle(kind, b), base.stores.At(kind), base.dbs.At(kind);
    assert Remembers(s, base);
    assert !Claimed(bases, c.stores.At(kind), kind, p, b);
    DisownEffect(s, StoreKey(kind, p), o);
    if Owners(s, StoreKey(kind, p)) == {} {
      assert !IsAt(s, StoreKey(kind, p), self);
      DisownEffect(s, StorageKey(p), self);
      assert self !in Owners(s, StorageKey(p));
      if Owners(s, StorageKey(p)) == {} {
        assert !IsAt(s, StorageKey(p), db);
        assert s.openDbs - {db} == s.openDbs;
      }
    }
  }

  function Without(c: Claims, kind: Kind, b: Handle): Claims
  {
    c.(stores := if kind == Nonces then c.stores.(nonces := c.stores.nonces - {b}) else c.stores.(txs := c.stores.txs - {b}))
  }

  /** close() on a store by `b`: its claim goes, and with the last claim the
      store and, if nobody else owns it, the database. */
  lemma CloseOwnKeeps(s: State, bases: map<Handle, Base>, settled: set<Handle>, c: Claims, kind: Kind, b: Handle)
    requires Inv(s, bases, settled, c) && b in settled && b in c.stores.At(kind)
    ensures Inv(CloseOwn(s, kind, b, bases[b]), bases, settled, Without(c, kind, b))
  {
    hide Disown, CloseStorage, StoragesTyped, StoresLinked, OwnersExact, OpenIsRegistered, Without;
    var base := bases[b];
    var p, o, self, db := base.paths.At(kind), OwnerHandle(kind, b), base.stores.At(kind), base.dbs.At(kind);
    var k := StoreKey(kind, p);
    assert Remembers(s, base);
    DisownEffect(s, k, o);
    var s1, s' := Disown(s, k, o), CloseOwn(s, kind, b, base);
    assert Claimed(bases, c.stores.At(kind), kind, p, b);
    assert IsAt(s, k, self);
    if Owners(s1, k) == {} {
      LastClaim(s, s1, kind, p, self, db);
      LastClaimLinks(s, s1, kind, p, self, db);
      LastClaimCloses(s, s1, kind, p, self, db);
    } else {
      assert forall k', h :: IsAt(s', k', h) <==> IsAt(s, k', h);
      SameRegistry(s, s', k);
    }
    ClaimRemoved(s, s', bases, c, kind, b);
    assert Without(c, kind, b).managers == c.managers by { WithoutManagers(c, kind, b); }
  }

  lemma WithoutManagers(c: Claims, kind: Kind, b: Handle)
    ensures Without(c, kind, b).managers == c.managers
  {
  }

  lemma ClaimRemoved(s: State, s': State, bases: map<Handle, Base>, c: Claims, kind: Kind, b: Handle)
    requires StoresCounted(s, bases, c) && b in bases
    requires var k := StoreKey(kind, bases[b].paths.At(kind));
      && Owners(s', k) == Owners(s, k) - {OwnerHandle(kind, b)}
      && (forall h :: IsAt(s', k, h) <==> IsAt(s, k, h) && Owners(s', k) != {})
      && (forall k': FullKey, h :: k'.StoreKey? && k' != k ==> (IsAt(s', k', h) <==> IsAt(s, k', h)))
      && (forall k': FullKey :: k'.StoreKey? && k' != k ==> Owners(s', k') == Owners(s, k'))
    ensures StoresCounted(s', bases, Without(c, kind, b))
  {
    forall kd, q, d
      ensures OwnerHandle(kd, d) in Owners(s', StoreKey(kd, q)) <==> Claimed(bases, Without(c, kind, b).stores.At(kd), kd, q, d)
      ensures Claimed(bases, Without(c, kind, b).stores.At(kd), kd, q, d) ==> IsAt(s', StoreKey(kd, q), bases[d].stores.At(kd))
    {
      assert OwnerHandle(kd, d) in Owners(s, StoreKey(kd, q)) <==> Claimed(bases, c.stores.At(kd), kd, q, d);
      assert Claimed(bases, Without(c, kind, b).stores.At(kd), kd, q, d) <==>
             Claimed(bases, c.stores.At(kd), kd, q, d) && !(kd == kind && d == b);
      assert kd == kind && OwnerHandle(kd, d) == OwnerHandle(kind, b) ==> d == b;
    }
  }

  // ---- acquiring ---------------------------------------------------------

  function With(c: Claims, kind: Kind, b: Handle): Claims
  {
    c.(stores := if kind == Nonces then c.stores.(nonces := c.stores.nonces + {b}) else c.stores.(txs := c.stores.txs + {b}))
  }

  /** A new store takes its claim on the database, opening it if need be. */
  ghost predicate GainsStore(s: State, s': State, kind: Kind, p: string, self: Handle, db: Handle, owner: Handle)
  {
    && Tidy(s')
    && self !in s.objects && s'.next > s.next
    && s'.objects == s.objects[db := LocalStorage(p)][self := Store(kind, p, db)]
    && (db in s.objects ==> s.objects[db] == LocalStorage(p))
    && s'.openDbs == s.openDbs + {db}
    && (if StorageKey(p) in s.retrieval then IsAt(s, StorageKey(p), db) else db !in s.objects && db != self)
    && (forall h :: IsAt(s', StorageKey(p), h) <==> h == db)
    && (forall h :: IsAt(s', StoreKey(kind, p), h) <==> h == self)
    && Owners(s', StorageKey(p)) == Owners(s, StorageKey(p)) + {self} && Owners(s', StoreKey(kind, p)) == {owner}
    && (forall k, h :: k != StorageKey(p) && k != StoreKey(kind, p) ==> (IsAt(s', k, h) <==> IsAt(s, k, h)))
    && (forall k :: k != StorageKey(p) && k != StoreKey(kind, p) ==> Owners(s', k) == Owners(s, k))
  }

  lemma RegisteredStorage(s: State, p: string, db: Handle)
    requires StoragesTyped(s) && OpenIsRegistered(s) && IsAt(s, StorageKey(p), db)
    ensures db in s.objects && s.objects[db] == LocalStorage(p) && db in s.openDbs
  {
  }

  lemma NewStore(s: State, kind: Kind, p: string, owner: Handle)
    requires Tidy(s) && Linked(s) && OpenIsRegistered(s) && StoreKey(kind, p) !in s.retrieval
    ensures var (s', self) := GetStore(s, kind, p, owner);
      GainsStore(s, s', kind, p, self, StorageOf(s', self), owner)
  {
    hide StoresLinked, OwnersExact, OpenIsRegistered, StoragesTyped;
    var k := StorageKey(p);
    if k in s.retrieval {
      var db := s.retrieval[k];
      RegisteredStorage(s, p, db);
      assert s.objects[db := LocalStorage(p)] == s.objects;
      assert s.openDbs + {db} == s.openDbs;
    }
  }

  lemma NewStoreKeeps(s: State, s': State, kind: Kind, p: string, self: Handle, db: Handle, owner: Handle)
    requires Tidy(s) && Linked(s) && GainsStore(s, s', kind, p, self, db, owner) && StoreKey(kind, p) !in s.retrieval
    ensures Linked(s')
  {
    NewStoreOwners(s, s', kind, p, self, db, owner);
    NewStoreStorages(s, s', kind, p, self, db, owner);
    hide OwnersExact, Tidy, Owners, StoragesTyped;
    forall kd, q, h | IsAt(s', StoreKey(kd, q), h)
      ensures h in s'.objects && s'.objects[h].Store? && s'.objects[h].kind == kd && s'.objects[h].path == q
        && IsAt(s', StorageKey(q), s'.objects[h].storage)
    {
      if kd != kind || q != p {
        assert IsAt(s, StoreKey(kd, q), h) && IsAt(s, StorageKey(q), s.objects[h].storage);
      }
    }
  }

  lemma NewStoreStorages(s: State, s': State, kind: Kind, p: string, self: Handle, db: Handle, owner: Handle)
    requires StoragesTyped(s) && GainsStore(s, s', kind, p, self, db, owner)
    ensures StoragesTyped(s')
  {
    hide Tidy, Owners;
    forall q, h | IsAt(s', StorageKey(q), h) ensures h in s'.objects && s'.objects[h] == LocalStorage(q) {
      assert q != p ==> IsAt(s, StorageKey(q), h);
    }
  }

  lemma NewStoreOwners(s: State, s': State, kind: Kind, p: string, self: Handle, db: Handle, owner: Handle)
    requires Tidy(s) && OwnersExact(s) && GainsStore(s, s', kind, p, self, db, owner) && StoreKey(kind, p) !in s.retrieval
    ensures OwnersExact(s')
  {
    hide Tidy;
    forall q, h ensures h in Owners(s', StorageKey(q)) <==> IsAt(s', StoreKey(Nonces, q), h) || IsAt(s', StoreKey(Txs, q), h) {
      assert !IsAt(s, StoreKey(kind, p), h);
      assert q != p ==> Owners(s', StorageKey(q)) == Owners(s, StorageKey(q));
    }
  }

  lemma NewStoreOpens(s: State, s': State, kind: Kind, p: string, self: Handle, db: Handle, owner: Handle)
    requires Tidy(s) && Linked(s) && OpenIsRegistered(s) && GainsStore(s, s', kind, p, self, db, owner)
    ensures OpenIsRegistered(s')
  {
    forall h | h in s'.openDbs
      ensures h in s'.objects && s'.objects[h].LocalStorage? && IsAt(s', StorageKey(s'.objects[h].path), h)
    {
      if h != db { assert h in s.openDbs && IsAt(s, StorageKey(s.objects[h].path), h); }
    }
  }

  lemma Settled(s: State, s': State, bases: map<Handle, Base>, settled: set<Handle>)
    requires forall b :: b in settled ==> b in bases && Remembers(s, bases[b])
    requires forall h :: h in s.objects ==> h in s'.objects && s'.objects[h] == s.objects[h]
    ensures forall b :: b in settled ==> b in bases && Remembers(s', bases[b])
  {
    forall b | b in settled ensures Remembers(s', bases[b]) { assert Remembers(s, bases[b]); }
  }

  /** A store that is registered already is shared. */
  lemma SharedStore(s: State, kind: Kind, p: string, owner: Handle)
    requires Tidy(s) && Linked(s) && OpenIsRegistered(s) && StoreKey(kind, p) in s.retrieval
    ensures var (s', self) := GetStore(s, kind, p, owner);
      var k := StoreKey(kind, p);
      && Tidy(s') && Linked(s') && OpenIsRegistered(s') && SameBut(s, s', k)
      && Owners(s', k) == Owners(s, k) + {owner} && IsAt(s', k, self) && IsAt(s, k, self)
  {
    hide StoragesTyped, StoresLinked, OwnersExact, OpenIsRegistered;
    var s' := GetStore(s, kind, p, owner).0;
    assert forall k', h :: IsAt(s', k', h) <==> IsAt(s, k', h);
    SameRegistry(s, s', StoreKey(kind, p));
  }

  lemma SameElsewhere(s: State, s': State, k: FullKey)
    requires Linked(s) && OpenIsRegistered(s) && SameBut(s, s', k) && k.ManagerKey?
    ensures Linked(s') && OpenIsRegistered(s')
  {
    assert forall k': FullKey, h :: !k'.ManagerKey? ==> (IsAt(s', k', h) <==> IsAt(s, k', h));
    assert forall k': FullKey :: !k'.ManagerKey? ==> Owners(s', k') == Owners(s, k');
  }

  lemma SameRegistry(s: State, s': State, k: FullKey)
    requires Linked(s) && OpenIsRegistered(s) && SameBut(s, s', k) && !k.StorageKey?
    requires forall k', h :: IsAt(s', k', h) <==> IsAt(s, k', h)
    ensures Linked(s') && OpenIsRegistered(s')
  {
  }

  /** getInstance() of a store for `b`: one more claim. */
  lemma GetStoreKeeps(s: State, bases: map<Handle, Base>, settled: set<Handle>, c: Claims, kind: Kind, b: Handle)
    requires Inv(s, bases, settled, c) && b in bases && b !in c.stores.At(kind)
    requires var (s', self) := GetStore(s, kind, bases[b].paths.At(kind), OwnerHandle(kind, b));
      bases[b].stores.At(kind) == self
    ensures var (s', self) := GetStore(s, kind, bases[b].paths.At(kind), OwnerHandle(kind, b));
      && Inv(s', bases, settled, With(c, kind, b)) && s'.next >= s.next
      && IsAt(s', StoreKey(kind, bases[b].paths.At(kind)), self)
  {
    hide StoragesTyped, StoresLinked, OwnersExact, OpenIsRegistered, GetStore, StoresCounted;
    var p, o := bases[b].paths.At(kind), OwnerHandle(kind, b);
    var (s', self) := GetStore(s, kind, p, o);
    if StoreKey(kind, p) !in s.retrieval {
      NewStore(s, kind, p, o);
      NewStoreKeeps(s, s', kind, p, self, StorageOf(s', self), o);
      NewStoreOpens(s, s', kind, p, self, StorageOf(s', self), o);
      assert Owners(s, StoreKey(kind, p)) == {};
    } else {
      SharedStore(s, kind, p, o);
    }
    Settled(s, s', bases, settled);
    ClaimAdded(s, s', bases, c, kind, b);
  }

  lemma ClaimAdded(s: State, s': State, bases: map<Handle, Base>, c: Claims, kind: Kind, b: Handle)
    requires StoresCounted(s, bases, c) && b in bases && b !in c.stores.At(kind)
    requires var k := StoreKey(kind, bases[b].paths.At(kind));
      && Owners(s', k) == Owners(s, k) + {OwnerHandle(kind, b)} && IsAt(s', k, bases[b].stores.At(kind))
      && (forall h :: IsAt(s, k, h) ==> h == bases[b].stores.At(kind))
      && (forall k': FullKey, h :: k'.StoreKey? && k' != k ==> (IsAt(s', k', h) <==> IsAt(s, k', h)))
      && (forall k': FullKey :: k'.StoreKey? && k' != k ==> Owners(s', k') == Owners(s, k'))
    ensures StoresCounted(s', bases, With(c, kind, b))
  {
    forall kd, q, d
      ensures OwnerHandle(kd, d) in Owners(s', StoreKey(kd, q)) <==> Claimed(bases, With(c, kind, b).stores.At(kd), kd, q, d)
      ensures Claimed(bases, With(c, kind, b).stores.At(kd), kd, q, d) ==> IsAt(s', StoreKey(kd, q), bases[d].stores.At(kd))
    {
      assert OwnerHandle(kd, d) in Owners(s, StoreKey(kd, q)) <==> Claimed(bases, c.stores.At(kd), kd, q, d);
      assert Claimed(bases, With(c, kind, b).stores.At(kd), kd, q, d) <==>
             Claimed(bases, c.stores.At(kd), kd, q, d) || (kd == kind && d == b && q == bases[b].paths.At(kind));
    }
  }

  lemma DeclareManagerKeeps(s: State, bases: map<Handle, Base>, settled: set<Handle>, c: Claims, b: Handle)
    requires Inv(s, bases, settled, c) && b in bases && b !in c.managers
    ensures Inv(DeclareOwnership(s, ManagerKey(bases[b].key), b + 1, b), bases, settled, c.(managers := c.managers + {b}))
  {
    hide StoragesTyped, StoresLinked, OwnersExact, OpenIsRegistered, Remembers;
    var k := ManagerKey(bases[b].key);
    var s' := DeclareOwnership(s, k, b + 1, b);
    assert forall k', h :: k' != k ==> (IsAt(s', k', h) <==> IsAt(s, k', h));
    assert forall k' :: k' != k ==> Owners(s', k') == Owners(s, k');
    assert Owners(s', k) == Owners(s, k) + {b};
    Settled(s, s', bases, settled);
    SameElsewhere(s, s', k);
  }

  // ---- runs of opening and closing ---------------------------------------

  /** The registry beside the history of the EthereumBase objects: `open` those
      not closed yet, `stranded` those whose close left their manager's claim on
      the nonce store behind. */
  datatype World = World(s: State, bases: map<Handle, Base>, open: set<Handle>, stranded: set<Handle>)

  datatype Op = Open(key: string, paths: Pair<string>) | Close(b: Handle)

  /** Another open object shares the manager's retrieval key. */
  ghost predicate HasPeer(w: World, b: Handle)
    requires b in w.bases
  {
    exists c :: c in w.open && c != b && c in w.bases && w.bases[c].key == w.bases[b].key
  }

  ghost function Step(w: World, op: Op): World
  {
    match op
    case Open(key, paths) =>
      var (s, b, base) := OpenBase(w.s, key, paths);
      World(s, w.bases[b := base], w.open + {b}, w.stranded)
    case Close(b) =>
      if b !in w.bases then w
      else World(CloseBase(w.s, b, w.bases[b]), w.bases, w.open - {b}, StrandedAfter(w, b))
  }

  const NEW_PROCESS := State(map[], map[], map[], {}, 0)

  ghost function Exec(ops: seq<Op>): World
  {
    if ops == [] then World(NEW_PROCESS, map[], {}, {}) else Step(Exec(ops[..|ops| - 1]), ops[|ops| - 1])
  }

  function ClaimsOf(w: World): Claims { Claims(w.open, Pair(w.open + w.stranded, w.open)) }

  ghost predicate WorldInv(w: World)
  {
    && Inv(w.s, w.bases, w.bases.Keys, ClaimsOf(w))
    && w.open <= w.bases.Keys && w.stranded <= w.bases.Keys && w.open !! w.stranded
    && (forall b :: b in w.bases ==> b < w.s.next)
  }

  /** What a close leaves stranded. */
  ghost function StrandedAfter(w: World, b: Handle): set<Handle>
    requires b in w.bases
  {
    if !HasPeer(w, b) then w.stranded - {b} else if b in w.open then w.stranded + {b} else w.stranded
  }

  lemma Pick(handles: set<Handle>) returns (d: Handle)
    requires handles != {}
    ensures d in handles
  {
    d :| d in handles;
  }

  lemma PeerIsOwner(w: World, b: Handle)
    requires ManagersCounted(w.s, w.bases, ClaimsOf(w)) && b in w.bases
    ensures HasPeer(w, b) <==> Owners(w.s, ManagerKey(w.bases[b].key)) - {b} != {}
    ensures b !in w.open ==> b !in Owners(w.s, ManagerKey(w.bases[b].key))
  {
    var key := w.bases[b].key;
    var rest := Owners(w.s, ManagerKey(key)) - {b};
    if rest != {} {
      var d := Pick(rest);
      assert d in Owners(w.s, ManagerKey(key));
      assert d in w.open && d in w.bases;
      assert HasPeer(w, b);
    }
    if HasPeer(w, b) {
      var d :| d in w.open && d != b && d in w.bases && w.bases[d].key == key;
      assert d in Owners(w.s, ManagerKey(key));
      assert d in rest;
      assert rest != {};
    }
  }

  lemma CloseManagerKeeps(w: World, b: Handle)
    requires WorldInv(w) && b in w.bases
    ensures Inv(CloseManager(w.s, b, w.bases[b]), w.bases, w.bases.Keys,
                Claims(w.open - {b}, Pair((w.open - {b}) + StrandedAfter(w, b), w.open)))
    ensures b !in w.open && (b !in w.stranded || HasPeer(w, b)) ==> CloseManager(w.s, b, w.bases[b]) == w.s
  {
    hide Disown, CloseOwn, Tidy, Linked, OpenIsRegistered, StoresCounted, ManagersCounted, Remembers, HasPeer;
    var base, c, keys := w.bases[b], ClaimsOf(w), w.bases.Keys;
    var k := ManagerKey(base.key);
    DisownManagerKeeps(w.s, w.bases, keys, c, b);
    DisownEffect(w.s, k, b);
    PeerIsOwner(w, b);
    var s1, c1 := Disown(w.s, k, b), c.(managers := w.open - {b});
    var claimed := (w.open - {b}) + StrandedAfter(w, b);
    if HasPeer(w, b) {
      assert claimed == w.open + w.stranded;
    } else {
      assert claimed == (w.open + w.stranded) - {b};
      if b in w.open + w.stranded {
        CloseOwnKeeps(s1, w.bases, keys, c1, Nonces, b);
      } else {
        StaleClose(s1, w.bases, keys, c1, Nonces, b);
        assert claimed == w.open + w.stranded;
      }
    }
  }

  lemma ClaimShows(w: World, w': World, b: Handle)
    requires WorldInv(w) && WorldInv(w') && w'.bases == w.bases
    requires b in w.stranded && b !in w'.open && b !in w'.stranded
    ensures w'.s != w.s
  {
    var p := w.bases[b].paths.At(Nonces);
    assert Claimed(w.bases, ClaimsOf(w).stores.At(Nonces), Nonces, p, b);
    assert !Claimed(w.bases, ClaimsOf(w').stores.At(Nonces), Nonces, p, b);
  }

  /** A close keeps the invariant; a repeated close moves the registry exactly
      when it frees a stranded claim. */
  lemma CloseKeeps(w: World, b: Handle)
    requires WorldInv(w) && b in w.bases
    ensures WorldInv(Step(w, Close(b)))
    ensures b !in w.open ==> (Step(w, Close(b)).s == w.s <==> b !in w.stranded || HasPeer(w, b))
  {
    hide Tidy, Linked, OpenIsRegistered, StoresCounted, Remembers, ManagersCounted, HasPeer, CloseManager, CloseOwn;
    var w', keys := Step(w, Close(b)), w.bases.Keys;
    CloseManagerKeeps(w, b);
    var s1 := CloseManager(w.s, b, w.bases[b]);
    var c1 := Claims(w.open - {b}, Pair((w.open - {b}) + w'.stranded, w.open));
    if b in w.open {
      CloseOwnKeeps(s1, w.bases, keys, c1, Txs, b);
    } else {
      StaleClose(s1, w.bases, keys, c1, Txs, b);
      assert w.open - {b} == w.open;
      if b in w.stranded && !HasPeer(w, b) { ClaimShows(w, w', b); }
    }
  }

  lemma BaseAdded(s: State, bases: map<Handle, Base>, c: Claims, b: Handle, base: Base, next: Handle)
    requires Inv(s, bases, bases.Keys, c) && b !in bases && next >= s.next
    requires b !in c.managers && b !in c.stores.nonces && b !in c.stores.txs
    ensures Inv(s.(next := next), bases[b := base], bases.Keys, c)
  {
    var s', bases' := s.(next := next), bases[b := base];
    assert forall k :: Owners(s', k) == Owners(s, k);
    assert forall k, h :: IsAt(s', k, h) <==> IsAt(s, k, h);
    assert forall kind, p, d :: Claimed(bases', c.stores.At(kind), kind, p, d) <==> Claimed(bases, c.stores.At(kind), kind, p, d);
    forall d | d in bases ensures Remembers(s', bases'[d]) { assert Remembers(s, bases[d]); }
  }

  lemma BaseSettles(s: State, bases: map<Handle, Base>, settled: set<Handle>, c: Claims, b: Handle)
    requires Inv(s, bases, settled, c) && b in bases && b in c.stores.nonces && b in c.stores.txs
    requires forall kind :: bases[b].dbs.At(kind) == StorageOf(s, bases[b].stores.At(kind))
    ensures Inv(s, bases, settled + {b}, c)
  {
    forall kind
      ensures var h, db := bases[b].stores.At(kind), bases[b].dbs.At(kind);
        && h in s.objects && s.objects[h] == Store(kind, bases[b].paths.At(kind), db)
        && db in s.objects && s.objects[db] == LocalStorage(bases[b].paths.At(kind))
    {
      assert Claimed(bases, c.stores.At(kind), kind, bases[b].paths.At(kind), b);
      assert IsAt(s, StoreKey(kind, bases[b].paths.At(kind)), bases[b].stores.At(kind));
      assert IsAt(s, StorageKey(bases[b].paths.At(kind)), bases[b].dbs.At(kind));
    }
  }

  lemma OpenKeeps(w: World, key: string, paths: Pair<string>)
    requires WorldInv(w)
    ensures WorldInv(Step(w, Open(key, paths)))
  {
    hide Tidy, Linked, OpenIsRegistered, Remembers, ManagersCounted, GetStore, StoresCounted;
    var w', c, keys := Step(w, Open(key, paths)), ClaimsOf(w), w.bases.Keys;
    var (s4, b, base) := OpenBase(w.s, key, paths);
    BaseAdded(w.s, w.bases, c, b, base, b + 2);
    var s0 := w.s.(next := b + 2);
    GetStoreKeeps(s0, w'.bases, keys, c, Nonces, b);
    var s1, c1 := GetStore(s0, Nonces, paths.nonces, b + 1).0, With(c, Nonces, b);
    DeclareManagerKeeps(s1, w'.bases, keys, c1, b);
    var s2, c2 := DeclareOwnership(s1, ManagerKey(key), b + 1, b), c1.(managers := c1.managers + {b});
    GetStoreKeeps(s2, w'.bases, keys, c2, Txs, b);
    var s3, c3 := GetStore(s2, Txs, paths.txs, b).0, With(c2, Txs, b);
    AlreadyOwned(s3, w'.bases, keys, c3, b);
    BaseSettles(s3, w'.bases, keys, c3, b);
    assert keys + {b} == w'.bases.Keys;
    assert w.open + w.stranded + {b} == w'.open + w'.stranded;
  }

  /** The second declareOwnership of the constructor adds nothing. */
  lemma AlreadyOwned(s: State, bases: map<Handle, Base>, settled: set<Handle>, c: Claims, b: Handle)
    requires Inv(s, bases, settled, c) && b in bases && b in c.stores.txs
    ensures DeclareOwnership(s, StoreKey(Txs, bases[b].paths.txs), bases[b].stores.txs, b) == s
  {
    var k := StoreKey(Txs, bases[b].paths.txs);
    assert Claimed(bases, c.stores.At(Txs), Txs, bases[b].paths.txs, b);
    assert OwnerHandle(Txs, b) in Owners(s, k) && IsAt(s, k, bases[b].stores.txs);
    assert Owners(s, k) + {b} == Owners(s, k);
    assert s.refCounts[k := s.refCounts[k]] == s.refCounts;
  }

  lemma {:induction false} Reachable(ops: seq<Op>)
    ensures WorldInv(Exec(ops))
  {
    if ops != [] {
      hide WorldInv, Step;
      var front, op := ops[..|ops| - 1], ops[|ops| - 1];
      Reachable(front);
      StepKeeps(Exec(front), op);
    }
  }

  lemma StepKeeps(w: World, op: Op)
    requires WorldInv(w)
    ensures WorldInv(Step(w, op))
  {
    hide Inv;
    match op
    case Open(key, paths) => OpenKeeps(w, key, paths);
    case Close(b) => if b in w.bases { CloseKeeps(w, b); }
  }

  // ---- what the runs show ------------------------------------------------

  /** Some object that has a claim on the database at `path`, through its manager
      and the nonce store or through the transaction store. */
  ghost predicate InUse(w: World, path: string)
  {
    exists b :: b in w.bases &&
      (((b in w.open || b in w.stranded) && w.bases[b].paths.nonces == path) || (b in w.open && w.bases[b].paths.txs == path))
  }

  ghost predicate DatabaseOpen(s: State, path: string)
  {
    exists h :: h in s.openDbs && h in s.objects && s.objects[h] == LocalStorage(path)
  }

  lemma InUseIffOpen(w: World, path: string)
    requires WorldInv(w)
    ensures DatabaseOpen(w.s, path) <==> InUse(w, path)
  {
    var s, c := w.s, ClaimsOf(w);
    if DatabaseOpen(s, path) {
      var h :| h in s.openDbs && h in s.objects && s.objects[h] == LocalStorage(path);
      assert IsAt(s, StorageKey(path), h);
      var store := Pick(Owners(s, StorageKey(path)));
      var kind := if IsAt(s, StoreKey(Nonces, path), store) then Nonces else Txs;
      assert IsAt(s, StoreKey(kind, path), store);
      var o := Pick(Owners(s, StoreKey(kind, path)));
      var b: nat := if kind == Nonces then o - 1 else o;
      assert OwnerHandle(kind, b) == o;
      assert Claimed(w.bases, c.stores.At(kind), kind, path, b);
    }
    if InUse(w, path) {
      var b :| b in w.bases &&
        (((b in w.open || b in w.stranded) && w.bases[b].paths.nonces == path) || (b in w.open && w.bases[b].paths.txs == path));
      var kind := if (b in w.open || b in w.stranded) && w.bases[b].paths.nonces == path then Nonces else Txs;
      assert Claimed(w.bases, c.stores.At(kind), kind, path, b);
      var store := w.bases[b].stores.At(kind);
      assert IsAt(s, StoreKey(kind, path), store);
      var db := s.objects[store].storage;
      assert IsAt(s, StorageKey(path), db) && db in s.openDbs;
    }
  }

  /** In every run the database of a path is open exactly while some object has a
      claim on it, and never through two objects at once. */
  lemma OpenExactlyWhileInUse(ops: seq<Op>, path: string)
    ensures DatabaseOpen(Exec(ops).s, path) <==> InUse(Exec(ops), path)
    ensures var s := Exec(ops).s;
      forall h, g :: h in s.openDbs && g in s.openDbs && h in s.objects && g in s.objects && s.objects[h] == s.objects[g] ==> h == g
  {
    hide Exec;
    Reachable(ops);
    InUseIffOpen(Exec(ops), path);
  }

  /** No object is opened under the manager key of one that is still open. */
  ghost predicate DistinctKeys(ops: seq<Op>)
  {
    forall k :: 0 <= k < |ops| && ops[k].Open? ==>
      var w := Exec(ops[..k]);
      forall b :: b in w.open && b in w.bases ==> w.bases[b].key != ops[k].key
  }

  lemma {:induction false} DistinctKeysNeverStrand(ops: seq<Op>)
    requires DistinctKeys(ops)
    ensures var w := Exec(ops);
      && w.stranded == {} && w.open <= w.bases.Keys
      && forall b, d :: b in w.open && d in w.open && b != d ==> w.bases[b].key != w.bases[d].key
  {
    if ops != [] {
      var front := ops[..|ops| - 1];
      assert forall k :: 0 <= k < |front| ==> ops[..k] == front[..k];
      DistinctKeysNeverStrand(front);
      Reachable(front);
      var w := Exec(front);
      match ops[|ops| - 1]
      case Open(key, paths) => assert w.s.next !in w.bases;
      case Close(b) => if b in w.open { assert !HasPeer(w, b); }
    }
  }

  /** With distinct manager keys a database is closed only when every object that
      owns it through its stores has closed, and it is closed once all have. */
  lemma ClosedOnceAllOwnersClosed(ops: seq<Op>, path: string)
    requires DistinctKeys(ops)
    ensures var w := Exec(ops);
      DatabaseOpen(w.s, path) <==>
        exists b :: b in w.open && b in w.bases && (w.bases[b].paths.nonces == path || w.bases[b].paths.txs == path)
  {
    OpenExactlyWhileInUse(ops, path);
    DistinctKeysNeverStrand(ops);
  }

  /** With distinct manager keys a repeated close changes nothing at all. */
  lemma RepeatedCloseIsNoop(ops: seq<Op>, b: Handle)
    requires DistinctKeys(ops) && b !in Exec(ops).open
    ensures Step(Exec(ops), Close(b)) == Exec(ops)
  {
    hide Exec, WorldInv;
    Reachable(ops);
    DistinctKeysNeverStrand(ops);
    var w := Exec(ops);
    if b in w.bases {
      CloseKeeps(w, b);
      assert w.open - {b} == w.open && w.stranded - {b} == w.stranded;
    }
  }

  // ---- the exact condition ------------------------------------------------

  /** Some close of `b` has happened. */
  ghost predicate ClosedIn(ops: seq<Op>, b: Handle)
  {
    exists k :: 0 <= k < |ops| && ops[k] == Close(b) && b in Exec(ops[..k]).bases
  }

  /** Some close of `b` has happened while no other open object had its manager key. */
  ghost predicate ClosedAlone(ops: seq<Op>, b: Handle)
  {
    exists k :: 0 <= k < |ops| && ops[k] == Close(b) && b in Exec(ops[..k]).bases && !HasPeer(Exec(ops[..k]), b)
  }

  lemma ClosedSnoc(front: seq<Op>, op: Op, b: Handle)
    ensures var w, ops := Exec(front), front + [op];
      && (ClosedIn(ops, b) <==> ClosedIn(front, b) || (op == Close(b) && b in w.bases))
      && (ClosedAlone(ops, b) <==> ClosedAlone(front, b) || (op == Close(b) && b in w.bases && !HasPeer(w, b)))
  {
    hide Exec, HasPeer;
    var ops := front + [op];
    assert ops[..|front|] == front && ops[|front|] == op;
    forall k | 0 <= k < |front| ensures ops[..k] == front[..k] && ops[k] == front[k] { }
    if ClosedIn(front, b) {
      var k :| 0 <= k < |front| && front[k] == Close(b) && b in Exec(front[..k]).bases;
      assert ops[k] == Close(b) && b in Exec(ops[..k]).bases;
    }
    if ClosedAlone(front, b) {
      var k :| 0 <= k < |front| && front[k] == Close(b) && b in Exec(front[..k]).bases && !HasPeer(Exec(front[..k]), b);
      assert ops[k] == Close(b) && b in Exec(ops[..k]).bases && !HasPeer(Exec(ops[..k]), b);
    }
  }

  lemma ExecSnoc(front: seq<Op>, op: Op)
    ensures Exec(front + [op]) == Step(Exec(front), op)
  {
    assert (front + [op])[..|front|] == front;
  }

  /** What a run leaves open and stranded, read off its operations. */
  lemma {:induction false} LeftBehind(ops: seq<Op>, b: Handle)
    ensures var w := Exec(ops);
      && (b in w.open <==> b in w.bases && !ClosedIn(ops, b))
      && (b in w.stranded <==> ClosedIn(ops, b) && !ClosedAlone(ops, b))
      && (ClosedAlone(ops, b) ==> ClosedIn(ops, b)) && (ClosedIn(ops, b) ==> b in w.bases)
  {
    if ops != [] {
      hide Exec, HasPeer, ClosedIn, ClosedAlone, WorldInv, CloseBase, OpenBase;
      var front, op := ops[..|ops| - 1], ops[|ops| - 1];
      assert ops == front + [op];
      LeftBehind(front, b);
      ClosedSnoc(front, op, b);
      ExecSnoc(front, op);
      Reachable(front);
      if op.Open? { FreshHandle(Exec(front), op.key, op.paths); }
    }
  }

  lemma FreshHandle(w: World, key: string, paths: Pair<string>)
    requires WorldInv(w)
    ensures OpenBase(w.s, key, paths).1 !in w.bases && OpenBase(w.s, key, paths).1 !in w.open + w.stranded
  {
    hide Inv;
    OpenResult(w.s, key, paths);
  }

  /** Some object reached the path through its manager and was never closed
      without an open peer, or through its transaction store and was never closed
      at all. */
  ghost predicate HeldIn(ops: seq<Op>, path: string)
  {
    var bases := Exec(ops).bases;
    exists b :: b in bases &&
      ((bases[b].paths.nonces == path && !ClosedAlone(ops, b)) || (bases[b].paths.txs == path && !ClosedIn(ops, b)))
  }

  /** In every run, repeated and mistaken closes included, the database of a path
      is open if and only if the operations leave it held. */
  lemma DatabaseOpenIff(ops: seq<Op>, path: string)
    ensures DatabaseOpen(Exec(ops).s, path) <==> HeldIn(ops, path)
  {
    hide Exec, ClosedAlone, ClosedIn;
    OpenExactlyWhileInUse(ops, path);
    forall b ensures b in Exec(ops).bases ==>
        (b in Exec(ops).open <==> !ClosedIn(ops, b)) && (b in Exec(ops).open + Exec(ops).stranded <==> !ClosedAlone(ops, b))
    {
      LeftBehind(ops, b);
    }
  }

  /** When every database is closed: each object was closed at some time when no
      other open one shared its manager key. */
  lemma AllClosedIff(ops: seq<Op>)
    ensures (forall path :: !DatabaseOpen(Exec(ops).s, path)) <==> (forall b :: b in Exec(ops).bases ==> ClosedAlone(ops, b))
  {
    hide Exec, ClosedAlone, ClosedIn, DatabaseOpen;
    if forall path :: !DatabaseOpen(Exec(ops).s, path) {
      forall b | b in Exec(ops).bases ensures ClosedAlone(ops, b) {
        DatabaseOpenIff(ops, Exec(ops).bases[b].paths.nonces);
      }
    } else {
      var path :| DatabaseOpen(Exec(ops).s, path);
      DatabaseOpenIff(ops, path);
      var b :| b in Exec(ops).bases && (!ClosedAlone(ops, b) || !ClosedIn(ops, b));
      LeftBehind(ops, b);
      assert !ClosedAlone(ops, b);
    }
  }

  /** Every close names an object that is still open. */
  ghost predicate ClosesOnce(ops: seq<Op>)
  {
    forall k :: 0 <= k < |ops| && ops[k].Close? ==> ops[k].b in Exec(ops[..k]).open
  }

  /** The promise that the last close closes the database: when each object has
      been closed once, every database is closed if and only if no close found
      an open object with the same manager key. */
  lemma ClosedAtLastCloseIff(ops: seq<Op>)
    requires ClosesOnce(ops) && Exec(ops).open == {}
    ensures (forall path :: !DatabaseOpen(Exec(ops).s, path)) <==>
      forall k :: 0 <= k < |ops| && ops[k].Close? && ops[k].b in Exec(ops[..k]).bases ==> !HasPeer(Exec(ops[..k]), ops[k].b)
  {
    hide Exec, HasPeer, DatabaseOpen;
    AllClosedIff(ops);
    forall b | b in Exec(ops).bases ensures ClosedIn(ops, b) { LeftBehind(ops, b); }
    forall j, k | 0 <= j < k < |ops| && ops[j].Close? && ops[k].Close? ensures ops[j].b != ops[k].b {
      CloseIsLast(ops, j, k);
    }
    forall k | 0 <= k < |ops| && ops[k].Close? && ops[k].b in Exec(ops[..k]).bases ensures ops[k].b in Exec(ops).bases {
      LeftBehind(ops, ops[k].b);
      assert ClosedIn(ops, ops[k].b);
    }
  }

  lemma CloseIsLast(ops: seq<Op>, j: nat, k: nat)
    requires ClosesOnce(ops) && j < k < |ops| && ops[j].Close? && ops[k].Close?
    ensures ops[j].b != ops[k].b
  {
    hide Exec;
    var b := ops[j].b;
    LeftBehind(ops[..j], b);
    assert ops[..k][j] == Close(b) && ops[..k][..j] == ops[..j];
    assert b in Exec(ops[..k][..j]).bases;
    LeftBehind(ops[..k], b);
    assert ClosedIn(ops[..k], b);
  }

  /** Two objects with one manager key, each closed once: the first one's claim
      stays behind and the database stays open with nobody left to close it. */
  lemma SharedKeyLeaks(key: string, paths: Pair<string>)
    ensures var b := NEW_PROCESS.next;
      var w2 := Step(Step(Exec([]), Open(key, paths)), Open(key, paths));
      exists d :: d in w2.open && d != b
        && var w4 := Step(Step(w2, Close(b)), Close(d));
           w4.open == {} && b in w4.stranded && DatabaseOpen(w4.s, paths.nonces)
  {
    hide OpenBase, CloseBase, DatabaseOpen, Inv;
    Reachable([]);
    var w0, b := Exec([]), NEW_PROCESS.next;
    OpenResult(w0.s, key, paths);
    StepKeeps(w0, Open(key, paths));
    var w1 := Step(w0, Open(key, paths));
    var d := w1.s.next;
    OpenResult(w1.s, key, paths);
    StepKeeps(w1, Open(key, paths));
    var w2 := Step(w1, Open(key, paths));
    assert b in w1.bases && b < d && w2.open == {b, d};
    assert HasPeer(w2, b) by { assert d in w2.open && w2.bases[d].key == w2.bases[b].key; }
    StepKeeps(w2, Close(b));
    var w3 := Step(w2, Close(b));
    assert w3.open == {d} && b in w3.stranded && !HasPeer(w3, d);
    StepKeeps(w3, Close(d));
    var w4 := Step(w3, Close(d));
    assert w4.open == {} && b in w4.stranded;
    InUseIffOpen(w4, paths.nonces);
    assert InUse(w4, paths.nonces) by { assert b in w4.bases && w4.bases[b].paths == paths; }
  }

  lemma OpenResult(s: State, key: string, paths: Pair<string>)
    ensures var r := OpenBase(s, key, paths); r.1 == s.next && r.2.key == key && r.2.paths == paths
  {
  }
}
