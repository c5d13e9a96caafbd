/** The text layer of the nonce manager (gateway/src/services/evm.nonce.ts:22-127):
    nonces live in one key/value store shared with other chains, as strings. */
module NonceStore {
  import opened Basics
  import opened Text

  datatype Nonce = Nonce(nonce: int, expiry: int)

  /** The fields a manager is constructed with. */
  datatype Config = Config(chain: string, chainId: int, localTTL: int, pendingTTL: int)

  type Store = map<string, string>

  const PENDING := "pending"

  function Prefix(c: Config): seq<string> { [c.chain, IntText(c.chainId)] }

  function CurrentKey(c: Config, address: string): string { Join(Prefix(c) + [address], '/') }

  function PendingKey(c: Config, address: string): string { Join(Prefix(c) + [address, PENDING], '/') }

  predicate IsCurrentKey(c: Config, key: string)
  {
    var parts := Split(key, '/');
    |parts| == 3 && parts[..2] == Prefix(c)
  }

  predicate IsPendingKey(c: Config, key: string)
  {
    var parts := Split(key, '/');
    |parts| == 4 && parts[..2] == Prefix(c) && parts[3] == PENDING
  }

  function AddressOf(key: string): string
    requires |Split(key, '/')| >= 3
  {
    Split(key, '/')[2]
  }

  function EncodeNonce(n: Nonce): string { IntText(n.nonce) + ":" + IntText(n.expiry) }

  /** `None` stands for an entry whose numbers read back as NaN. */
  function DecodeNonce(text: string): Option<Nonce>
  {
    var parts := Split(text, ':');
    if |parts| < 2 then None
    else match (ParseInt(parts[0]), ParseInt(parts[1]))
      case (Some(nonce), Some(expiry)) => Some(Nonce(nonce, expiry))
      case _ => None
  }

  /** A comma before every entry, so the empty list is the empty string. */
  function EncodeList(ns: seq<Nonce>): string
  {
    if ns == [] then "" else EncodeList(ns[..|ns| - 1]) + "," + EncodeNonce(ns[|ns| - 1])
  }

  function DecodeEach(texts: seq<string>): Option<seq<Nonce>>
  {
    if texts == [] then Some([])
    else match (DecodeNonce(texts[0]), DecodeEach(texts[1..]))
      case (Some(n), Some(ns)) => Some([n] + ns)
      case _ => None
  }

  /** Split at the commas and drop the first piece. */
  function DecodeList(text: string): Option<seq<Nonce>> { DecodeEach(Split(text, ',')[1..]) }

  /** Every stored key of one kind names one address. */
  lemma KeyOfAddress(c: Config, key: string)
    ensures IsCurrentKey(c, key) ==> key == CurrentKey(c, AddressOf(key)) && '/' !in AddressOf(key)
    ensures IsPendingKey(c, key) ==> key == PendingKey(c, AddressOf(key)) && '/' !in AddressOf(key)
  {
    JoinSplit(key, '/');
    var parts := Split(key, '/');
    if IsCurrentKey(c, key) { assert parts == parts[..2] + [AddressOf(key)]; }
    if IsPendingKey(c, key) { assert parts == parts[..2] + [AddressOf(key), PENDING]; }
  }

  /** The function `getCurrentNonces` reads each stored entry with. */
  function ReadCurrent(c: Config, key: string, value: string): (r: Option<(string, Nonce)>)
    ensures r.Some? ==> key == CurrentKey(c, r.value.0) && '/' !in r.value.0
  {
    KeyOfAddress(c, key);
    if IsCurrentKey(c, key) && DecodeNonce(value).Some? then Some((AddressOf(key), DecodeNonce(value).value)) else None
  }

  /** The function `getPendingNonces` reads each stored entry with. */
  function ReadPending(c: Config, key: string, value: string): (r: Option<(string, seq<Nonce>)>)
    ensures r.Some? ==> key == PendingKey(c, r.value.0) && '/' !in r.value.0
  {
    KeyOfAddress(c, key);
    if IsPendingKey(c, key) && DecodeList(value).Some? then Some((AddressOf(key), DecodeList(value).value)) else None
  }

  /** What `getCurrentNonces` returns. */
  function LoadCurrent(c: Config, db: Store): map<string, Nonce>
  {
    map k | k in db && ReadCurrent(c, k, db[k]).Some?
      :: ReadCurrent(c, k, db[k]).value.0 := ReadCurrent(c, k, db[k]).value.1
  }

  /** What `getPendingNonces` returns. */
  function LoadPending(c: Config, db: Store): map<string, seq<Nonce>>
  {
    map k | k in db && ReadPending(c, k, db[k]).Some?
      :: ReadPending(c, k, db[k]).value.0 := ReadPending(c, k, db[k]).value.1
  }

  // ---- round trips of the text ------------------------------------------

  lemma PlainIntText(n: int)
    ensures forall c | c in IntText(n) :: c != ':' && c != ',' && c != '/'
  {
    ParseIntText(n);
  }

  lemma DecodeEncodeNonce(n: Nonce)
    ensures DecodeNonce(EncodeNonce(n)) == Some(n)
    ensures ',' !in EncodeNonce(n)
  {
    hide IntText, ParseInt, Split;
    PlainIntText(n.nonce);
    PlainIntText(n.expiry);
    SplitAtSeparator(IntText(n.nonce), ':', IntText(n.expiry));
    SplitFree(IntText(n.expiry), ':');
    ParseIntText(n.nonce);
    ParseIntText(n.expiry);
  }

  ghost predicate Encodes(texts: seq<string>, ns: seq<Nonce>)
  {
    |texts| == |ns| && forall i :: 0 <= i < |ns| ==> texts[i] == EncodeNonce(ns[i])
  }

  lemma {:induction false} JoinSnoc(parts: seq<string>, last: string, sep: char)
    requires |parts| >= 1
    ensures Join(parts + [last], sep) == Join(parts, sep) + [sep] + last
  {
    if |parts| > 1 {
      JoinSnoc(parts[1..], last, sep);
      assert (parts + [last])[1..] == parts[1..] + [last];
      assert parts[0] + [sep] + (Join(parts[1..], sep) + [sep] + last)
          == (parts[0] + [sep] + Join(parts[1..], sep)) + [sep] + last;
    } else {
      assert (parts + [last])[1..] == [last];
    }
  }

  lemma Snoc<T>(first: T, rest: seq<T>)
    requires rest != []
    ensures ([first] + rest[..|rest| - 1]) + [rest[|rest| - 1]] == [first] + rest
  {
  }

  lemma {:induction false} EncodeListIsJoin(texts: seq<string>, ns: seq<Nonce>)
    requires Encodes(texts, ns)
    ensures EncodeList(ns) == Join([""] + texts, ',')
  {
    if ns != [] {
      var front, last := texts[..|ns| - 1], texts[|ns| - 1];
      EncodeListIsJoin(front, ns[..|ns| - 1]);
      assert EncodeList(ns) == Join([""] + front, ',') + "," + last;
      JoinSnoc([""] + front, last, ',');
      Snoc("", texts);
    } else {
      assert [""] + texts == [""];
    }
  }

  lemma {:induction false} DecodeTexts(texts: seq<string>, ns: seq<Nonce>)
    requires Encodes(texts, ns)
    ensures DecodeEach(texts) == Some(ns)
  {
    hide EncodeNonce, DecodeNonce;
    if ns != [] {
      DecodeEncodeNonce(ns[0]);
      var rest, later := texts[1..], ns[1..];
      assert forall i :: 0 <= i < |later| ==> rest[i] == texts[i + 1] && later[i] == ns[i + 1];
      DecodeTexts(rest, later);
      assert ns == [ns[0]] + later;
    }
  }

  /** The pending list reads back exactly, the empty list and nonce -1 included. */
  lemma DecodeEncodeList(ns: seq<Nonce>)
    ensures DecodeList(EncodeList(ns)) == Some(ns)
  {
    var texts := seq(|ns|, i requires 0 <= i < |ns| => EncodeNonce(ns[i]));
    EncodeListIsJoin(texts, ns);
    var parts := [""] + texts;
    forall i | 0 <= i < |parts| ensures ',' !in parts[i] {
      if i > 0 { DecodeEncodeNonce(ns[i - 1]); }
    }
    SplitJoin(parts, ',');
    DecodeTexts(texts, ns);
    assert parts[1..] == texts;
  }

  // ---- the keys of one manager -------------------------------------------

  lemma CancelPrefix(start: string, x: string, y: string)
    requires start + x == start + y
    ensures x == y
  {
    assert x == (start + x)[|start|..];
  }

  lemma KeyText(c: Config, a: string)
    ensures CurrentKey(c, a) == c.chain + "/" + IntText(c.chainId) + "/" + a
    ensures PendingKey(c, a) == c.chain + "/" + IntText(c.chainId) + "/" + a + "/" + PENDING
  {
    var parts := Prefix(c) + [a];
    JoinSnoc(Prefix(c), a, '/');
    JoinSnoc([c.chain], IntText(c.chainId), '/');
    JoinSnoc(parts, PENDING, '/');
    assert Prefix(c) == [c.chain] + [IntText(c.chainId)];
    assert Prefix(c) + [a, PENDING] == parts + [PENDING];
  }

  /** The read-back test `split(key).length === 3` recognises the key written
      for an address exactly when the address is free of '/'. */
  lemma CurrentKeyRecognised(c: Config, a: string)
    requires '/' !in c.chain
    ensures IsCurrentKey(c, CurrentKey(c, a)) <==> '/' !in a
    ensures '/' !in a ==> AddressOf(CurrentKey(c, a)) == a && !IsPendingKey(c, CurrentKey(c, a))
  {
    PlainIntText(c.chainId);
    var key := CurrentKey(c, a);
    if '/' !in a {
      SplitJoin(Prefix(c) + [a], '/');
    } else if IsCurrentKey(c, key) {
      KeyOfAddress(c, key);
      KeyText(c, a);
      KeyText(c, AddressOf(key));
      CancelPrefix(c.chain + "/" + IntText(c.chainId) + "/", a, AddressOf(key));
    }
  }

  lemma PendingKeyRecognised(c: Config, a: string)
    requires '/' !in c.chain && '/' !in a
    ensures IsPendingKey(c, PendingKey(c, a)) && AddressOf(PendingKey(c, a)) == a
    ensures !IsCurrentKey(c, PendingKey(c, a))
  {
    PlainIntText(c.chainId);
    SplitJoin(Prefix(c) + [a, PENDING], '/');
  }

  /** Why the address must be free of '/': the current nonce of one address
      would overwrite the pending list of another. */
  lemma SlashedAddressCollides(c: Config, a: string)
    ensures CurrentKey(c, a + "/" + PENDING) == PendingKey(c, a)
  {
    KeyText(c, a);
    KeyText(c, a + "/" + PENDING);
  }

  lemma LoadedAt(c: Config, db: Store, a: string)
    requires '/' !in c.chain && '/' !in a
    ensures var key := CurrentKey(c, a);
      && (a in LoadCurrent(c, db) <==> key in db && DecodeNonce(db[key]).Some?)
      && (a in LoadCurrent(c, db) ==> LoadCurrent(c, db)[a] == DecodeNonce(db[key]).value)
    ensures var key := PendingKey(c, a);
      && (a in LoadPending(c, db) <==> key in db && DecodeList(db[key]).Some?)
      && (a in LoadPending(c, db) ==> LoadPending(c, db)[a] == DecodeList(db[key]).value)
  {
    CurrentKeyRecognised(c, a);
    PendingKeyRecognised(c, a);
    forall k | k in db && IsCurrentKey(c, k) && AddressOf(k) == a ensures k == CurrentKey(c, a) { KeyOfAddress(c, k); }
    forall k | k in db && IsPendingKey(c, k) && AddressOf(k) == a ensures k == PendingKey(c, a) { KeyOfAddress(c, k); }
  }

  lemma LoadedAddresses(c: Config, db: Store)
    ensures forall a | a in LoadCurrent(c, db) || a in LoadPending(c, db) :: '/' !in a
  {
    forall k | k in db ensures IsCurrentKey(c, k) || IsPendingKey(c, k) ==> '/' !in AddressOf(k) { KeyOfAddress(c, k); }
  }

  lemma KeysDiffer(c: Config, a: string, b: string)
    requires '/' !in c.chain && '/' !in a && '/' !in b
    ensures a != b ==> CurrentKey(c, a) != CurrentKey(c, b) && PendingKey(c, a) != PendingKey(c, b)
    ensures CurrentKey(c, a) != PendingKey(c, b)
  {
    CurrentKeyRecognised(c, a);
    CurrentKeyRecognised(c, b);
    PendingKeyRecognised(c, a);
    PendingKeyRecognised(c, b);
  }

  /** Two loaded maps that agree address by address, but for the entry of `a`. */
  ghost predicate SameBut<V(!new)>(m: map<string, V>, m': map<string, V>, b: string)
  {
    (b in m' <==> b in m) && (b in m' ==> m'[b] == m[b])
  }

  lemma Updated<V(!new)>(m: map<string, V>, m': map<string, V>, a: string, v: V)
    requires a in m' && m'[a] == v
    requires forall b | b != a :: SameBut(m, m', b)
    ensures m' == m[a := v]
  {
    forall b
      ensures b in m' <==> b in m[a := v]
      ensures b in m' ==> m'[b] == m[a := v][b]
    {
      assert b == a || SameBut(m, m', b);
    }
  }

  lemma Untouched<V(!new)>(m: map<string, V>, m': map<string, V>)
    requires forall b :: SameBut(m, m', b)
    ensures m' == m
  {
    forall b
      ensures b in m' <==> b in m
      ensures b in m' ==> m'[b] == m[b]
    {
      assert SameBut(m, m', b);
    }
  }

  lemma SaveKeepsCurrent(c: Config, db: Store, key: string, text: string, b: string)
    requires '/' !in c.chain && (CurrentKey(c, b) != key || '/' in b)
    ensures SameBut(LoadCurrent(c, db), LoadCurrent(c, db[key := text]), b)
  {
    LoadedAddresses(c, db);
    LoadedAddresses(c, db[key := text]);
    if '/' !in b {
      LoadedAt(c, db, b);
      LoadedAt(c, db[key := text], b);
    }
  }

  lemma SaveKeepsPending(c: Config, db: Store, key: string, text: string, b: string)
    requires '/' !in c.chain && (PendingKey(c, b) != key || '/' in b)
    ensures SameBut(LoadPending(c, db), LoadPending(c, db[key := text]), b)
  {
    LoadedAddresses(c, db);
    LoadedAddresses(c, db[key := text]);
    if '/' !in b {
      LoadedAt(c, db, b);
      LoadedAt(c, db[key := text], b);
    }
  }

  /** Saving a current nonce changes that one entry of what is loaded. */
  lemma LoadAfterSaveCurrent(c: Config, db: Store, a: string, n: Nonce)
    requires '/' !in c.chain && '/' !in a
    ensures LoadCurrent(c, db[CurrentKey(c, a) := EncodeNonce(n)]) == LoadCurrent(c, db)[a := n]
    ensures LoadPending(c, db[CurrentKey(c, a) := EncodeNonce(n)]) == LoadPending(c, db)
  {
    var key, text := CurrentKey(c, a), EncodeNonce(n);
    var m, m' := LoadCurrent(c, db), LoadCurrent(c, db[key := text]);
    var p, p' := LoadPending(c, db), LoadPending(c, db[key := text]);
    DecodeEncodeNonce(n);
    LoadedAt(c, db[key := text], a);
    forall b | b != a ensures SameBut(m, m', b) {
      if '/' !in b { KeysDiffer(c, a, b); }
      SaveKeepsCurrent(c, db, key, text, b);
    }
    forall b ensures SameBut(p, p', b) {
      if '/' !in b { KeysDiffer(c, a, b); }
      SaveKeepsPending(c, db, key, text, b);
    }
    Updated(m, m', a, n);
    Untouched(p, p');
  }

  /** Saving a pending list changes that one entry of what is loaded. */
  lemma LoadAfterSavePending(c: Config, db: Store, a: string, ns: seq<Nonce>)
    requires '/' !in c.chain && '/' !in a
    ensures LoadPending(c, db[PendingKey(c, a) := EncodeList(ns)]) == LoadPending(c, db)[a := ns]
    ensures LoadCurrent(c, db[PendingKey(c, a) := EncodeList(ns)]) == LoadCurrent(c, db)
  {
    var key, text := PendingKey(c, a), EncodeList(ns);
    var m, m' := LoadCurrent(c, db), LoadCurrent(c, db[key := text]);
    var p, p' := LoadPending(c, db), LoadPending(c, db[key := text]);
    DecodeEncodeList(ns);
    LoadedAt(c, db[key := text], a);
    forall b | b != a ensures SameBut(p, p', b) {
      if '/' !in b { KeysDiffer(c, a, b); }
      SaveKeepsPending(c, db, key, text, b);
    }
    forall b ensures SameBut(m, m', b) {
      if '/' !in b { KeysDiffer(c, b, a); }
      SaveKeepsCurrent(c, db, key, text, b);
    }
    Updated(p, p', a, ns);
    Untouched(m, m');
  }

  /** The keys and texts as they stand in the store, literally. */
  lemma StoredFormat(c: Config)
    requires c.chain == "ethereum" && c.chainId == 5
    ensures CurrentKey(c, "0xa") == "ethereum/5/0xa" && PendingKey(c, "0xa") == "ethereum/5/0xa/pending"
    ensures EncodeNonce(Nonce(7, 12)) == "7:12" && EncodeNonce(Nonce(-1, 0)) == "-1:0"
    ensures EncodeList([]) == "" && EncodeList([Nonce(-1, 0), Nonce(7, 12)]) == ",-1:0,7:12"
  {
    hide CurrentKey, PendingKey, EncodeNonce, EncodeList;
    KeyFormat(c);
    NonceFormat();
    ListFormat(Nonce(-1, 0), Nonce(7, 12));
  }

  lemma KeyFormat(c: Config)
    requires c.chain == "ethereum" && c.chainId == 5
    ensures CurrentKey(c, "0xa") == "ethereum/5/0xa" && PendingKey(c, "0xa") == "ethereum/5/0xa/pending"
  {
    hide CurrentKey, PendingKey;
    assert IntText(5) == "5";
    KeyText(c, "0xa");
  }

  lemma NonceFormat()
    ensures EncodeNonce(Nonce(7, 12)) == "7:12" && EncodeNonce(Nonce(-1, 0)) == "-1:0"
  {
    assert IntText(7) == "7" && IntText(12) == "12" && IntText(-1) == "-1" && IntText(0) == "0" by {
      assert NatText(12) == NatText(1) + "2";
    }
    hide IntText;
  }

  lemma ListFormat(a: Nonce, b: Nonce)
    ensures EncodeList([]) == "" && EncodeList([a, b]) == "," + EncodeNonce(a) + "," + EncodeNonce(b)
  {
    hide EncodeNonce;
    assert [a, b][..1] == [a] && [a][..0] == [];
    assert EncodeList([a]) == "," + EncodeNonce(a);
  }
}
