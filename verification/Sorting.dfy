/** Python's sorted(): the one ascending arrangement of a list. */
module Sorting {

  type Order<!T> = (T, T) -> bool

  function Insert<T>(x: T, s: seq<T>, le: Order<T>): (r: seq<T>)
    ensures |r| == |s| + 1
  {
    if s == [] then [x] else if le(x, s[0]) then [x] + s else [s[0]] + Insert(x, s[1..], le)
  }

  function Sorted<T>(s: seq<T>, le: Order<T>): (r: seq<T>)
    ensures |r| == |s|
  {
    if s == [] then [] else Insert(s[0], Sorted(s[1..], le), le)
  }

  ghost predicate TotalOrder<T(!new)>(le: Order<T>) {
    && (forall a, b :: le(a, b) || le(b, a))
    && (forall a, b, c :: le(a, b) && le(b, c) ==> le(a, c))
    && (forall a, b :: le(a, b) && le(b, a) ==> a == b)
  }

  ghost predicate Ascending<T>(s: seq<T>, le: Order<T>) {
    forall i, j :: 0 <= i < j < |s| ==> le(s[i], s[j])
  }

  lemma {:induction false} InsertAdds<T>(x: T, s: seq<T>, le: Order<T>)
    ensures multiset(Insert(x, s, le)) == multiset(s) + multiset{x}
  {
    if s != [] {
      InsertAdds(x, s[1..], le);
      assert s == [s[0]] + s[1..];
    }
  }

  lemma {:induction false} InsertAscends<T(!new)>(x: T, s: seq<T>, le: Order<T>)
    requires TotalOrder(le) && Ascending(s, le)
    ensures Ascending(Insert(x, s, le), le)
  {
    if s != [] && !le(x, s[0]) {
      var tail, r := s[1..], Insert(x, s[1..], le);
      InsertAscends(x, tail, le);
      InsertAdds(x, tail, le);
      forall i | 0 <= i < |r| ensures le(s[0], r[i]) {
        assert r[i] in multiset(tail) + multiset{x};
        assert r[i] == x || r[i] in tail;
      }
    }
  }

  /** Sorting arranges the same elements in ascending order. */
  lemma {:induction false} SortedIsAscending<T(!new)>(s: seq<T>, le: Order<T>)
    requires TotalOrder(le)
    ensures Ascending(Sorted(s, le), le) && multiset(Sorted(s, le)) == multiset(s)
  {
    if s != [] {
      SortedIsAscending(s[1..], le);
      InsertAscends(s[0], Sorted(s[1..], le), le);
      InsertAdds(s[0], Sorted(s[1..], le), le);
      assert s == [s[0]] + s[1..];
    }
  }
}
