/** The registry of `RefCounting` as the source holds it: static maps that every
    getInstance, declareOwnership and close overwrites. */
module Registry {
  import opened RefCounting

  class Closeables {
    var retrievalMap: map<FullKey, Handle>
    var refCounts: map<FullKey, set<Handle>>
    var objects: map<Handle, Object>
    var openDbs: set<Handle>
    var nextHandle: Handle
    /** The EthereumBase objects opened and closed so far. */
    ghost var history: seq<Op>

    ghost predicate Valid()
      reads this
    {
      retrievalMap.Keys == refCounts.Keys
    }

    /** The registry is where its history leads. */
    ghost predicate Consistent()
      reads this
    {
      Valid() && View() == Exec(history).s
    }

    function View(): State
      reads this
    {
      State(retrievalMap, refCounts, objects, openDbs, nextHandle)
    }

    constructor ()
      ensures Consistent() && history == [] && View() == NEW_PROCESS
    {
      retrievalMap, refCounts, objects, openDbs, nextHandle := map[], map[], map[], {}, 0;
      history := [];
    }

    method CreateHandle() returns (h: Handle)
      modifies `nextHandle
      ensures h == old(nextHandle) && View() == old(View()).(next := h + 1)
    {
      h := nextHandle;
      nextHandle := nextHandle + 1;
    }

    method RefCount(k: FullKey) returns (n: nat)
      ensures n == |Owners(View(), k)|
    {
      n := if k in refCounts then |refCounts[k]| else 0;
    }

    method DeclareOwnership(k: FullKey, self: Handle, owner: Handle)
      requires Valid()
      modifies this
      ensures Valid() && View() == RefCounting.DeclareOwnership(old(View()), k, self, owner)
      ensures unchanged(`history)
    {
      if k !in retrievalMap { retrievalMap := retrievalMap[k := self]; }
      if k !in refCounts {
        refCounts := refCounts[k := {owner}];
      } else {
        refCounts := refCounts[k := refCounts[k] + {owner}];
      }
      assert {} + {owner} == {owner};
    }

    /** close() of the base class. */
    method Close(k: FullKey, owner: Handle)
      requires Valid()
      modifies `retrievalMap, `refCounts
      ensures Valid() && View() == Disown(old(View()), k, owner)
    {
      if k in retrievalMap {
        refCounts := refCounts[k := refCounts[k] - {owner}];
        if |refCounts[k]| < 1 {
          refCounts := refCounts - {k};
          retrievalMap := retrievalMap - {k};
          assert refCounts == old(refCounts) - {k};
        }
      }
    }

    /** LocalStorage.getInstance; the constructor opens the database. */
    method GetStorageInstance(path: string, owner: Handle) returns (self: Handle)
      requires Valid()
      modifies this
      ensures Valid() && (View(), self) == GetStorage(old(View()), path, owner)
      ensures unchanged(`history)
    {
      var k := StorageKey(path);
      if k in retrievalMap {
        refCounts := refCounts[k := refCounts[k] + {owner}];
        self := retrievalMap[k];
      } else {
        self := CreateHandle();
        openDbs := openDbs + {self};
        objects := objects[self := LocalStorage(path)];
        retrievalMap := retrievalMap[k := self];
        refCounts := refCounts[k := {owner}];
      }
    }

    /** NonceLocalStorage.getInstance and EvmTxStorage.getInstance. */
    method GetStoreInstance(kind: Kind, path: string, owner: Handle) returns (self: Handle)
      requires Valid()
      modifies this
      ensures Valid() && (View(), self) == GetStore(old(View()), kind, path, owner)
      ensures unchanged(`history)
    {
      hide GetStorage;
      var k := StoreKey(kind, path);
      if k in retrievalMap {
        refCounts := refCounts[k := refCounts[k] + {owner}];
        self := retrievalMap[k];
      } else {
        self := CreateHandle();
        var storage := GetStorageInstance(path, self);
        objects := objects[self := Store(kind, path, storage)];
        retrievalMap := retrievalMap[k := self];
        refCounts := refCounts[k := {owner}];
      }
    }

    /** LocalStorage.close */
    method CloseLocalStorage(self: Handle, path: string, owner: Handle)
      requires Valid()
      modifies this
      ensures Valid() && View() == CloseStorage(old(View()), self, path, owner)
      ensures unchanged(`history)
    {
      Close(StorageKey(path), owner);
      var n := RefCount(StorageKey(path));
      if n < 1 { openDbs := openDbs - {self}; }
    }

    /** NonceLocalStorage.close and EvmTxStorage.close */
    method CloseStoreInstance(kind: Kind, self: Handle, path: string, storage: Handle, owner: Handle)
      requires Valid()
      modifies this
      ensures Valid() && View() == CloseStore(old(View()), kind, self, path, storage, owner)
      ensures unchanged(`history)
    {
      Close(StoreKey(kind, path), owner);
      var n := RefCount(StoreKey(kind, path));
      if n < 1 { CloseLocalStorage(storage, path, self); }
    }

    /** EVMNonceManager.close */
    method CloseNonceManager(b: Handle, base: Base)
      requires Valid()
      modifies this
      ensures Valid() && View() == CloseManager(old(View()), b, base)
      ensures unchanged(`history)
    {
      Close(ManagerKey(base.key), b);
      var n := RefCount(ManagerKey(base.key));
      if n < 1 { CloseStoreInstance(Nonces, base.stores.nonces, base.paths.nonces, base.dbs.nonces, b + 1); }
    }

    /** EthereumBase.close */
    method CloseEthereumBase(b: Handle, base: Base)
      requires Valid()
      modifies this
      ensures Valid() && View() == CloseBase(old(View()), b, base)
      ensures history == old(history) + [Op.Close(b)]
      ensures old(Consistent()) && b in Exec(old(history)).bases && base == Exec(old(history)).bases[b] ==> Consistent()
    {
      hide CloseBase, Exec;
      CloseNonceManager(b, base);
      CloseStoreInstance(Txs, base.stores.txs, base.paths.txs, base.dbs.txs, b);
      CloseBaseIs(old(View()), b, base);
      ExecSnoc(history, Op.Close(b));
      history := history + [Op.Close(b)];
    }

    /** The EthereumBase constructor. */
    method OpenEthereumBase(key: string, paths: Pair<string>) returns (b: Handle, base: Base)
      requires Valid()
      modifies this
      ensures Valid() && (View(), b, base) == OpenBase(old(View()), key, paths)
      ensures history == old(history) + [Open(key, paths)]
      ensures old(Consistent()) ==> Consistent() && b in Exec(history).bases && Exec(history).bases[b] == base
    {
      hide GetStore, RefCounting.DeclareOwnership;
      b := CreateHandle();
      var manager := CreateHandle();
      var nonces := GetStoreInstance(Nonces, paths.nonces, manager);
      DeclareOwnership(ManagerKey(key), manager, b);
      var txs := GetStoreInstance(Txs, paths.txs, b);
      DeclareOwnership(StoreKey(Txs, paths.txs), txs, b);
      base := Base(key, paths, Pair(nonces, txs), Pair(StorageOf(View(), nonces), StorageOf(View(), txs)));
      ghost var before := history;
      history := history + [Open(key, paths)];
      ExecSnoc(before, Open(key, paths));
    }

    /** Whether the database of a path is open: in a consistent registry if and
        only if some object reached it and has not let go of it. */
    method DbIsOpen(path: string) returns (open: bool)
      ensures open <==> DatabaseOpen(View(), path)
      ensures Consistent() ==> (open <==> InUse(Exec(history), path))
      ensures Consistent() ==> (open <==> HeldIn(history, path))
    {
      hide Exec, InUse, HeldIn;
      open := exists h :: h in openDbs && h in objects && objects[h] == LocalStorage(path);
      OpenExactlyWhileInUse(history, path);
      DatabaseOpenIff(history, path);
    }
  }
}
