/** Configuration trees (gateway/src/services/config-manager-v2.ts) on values: the
    recursive merge of a config into its template, and reading and writing along
    a path. Objects and arrays are both maps of their own keys. */
module ConfigTree {
  import opened Basics

  datatype Value =
    | Str(s: string)
    | Num(n: real)
    | Bool(b: bool)
    | Null
    | Node(isArray: bool, fields: map<string, Value>)

  datatype Type = StringType | NumberType | BooleanType | ObjectType

  /** `typeof`: null and every container are 'object'. */
  function TypeOf(v: Value): Type
  {
    match v
    case Str(_) => StringType
    case Num(_) => NumberType
    case Bool(_) => BooleanType
    case Null => ObjectType
    case Node(_, _) => ObjectType
  }

  predicate Falsy(v: Value) { v == Str("") || v == Num(0.0) || v == Bool(false) || v == Null }

  function At(v: Value, key: string): Option<Value>
    requires v.Node?
  {
    if key in v.fields then Some(v.fields[key]) else None
  }

  // ---- deepCopy -------------------------------------------------------------

  /** What a source container is copied into: the slot, or a new container of the
      same kind if the slot is missing or falsy. */
  function Base(src: Value, slot: Option<Value>): Value
    requires src.Node?
  {
    if slot.None? || Falsy(slot.value) then Node(src.isArray, map[]) else slot.value
  }

  /** What a slot of the destination holds after `src` is copied into it. */
  function Merged(src: Value, slot: Option<Value>): Value
    decreases src
  {
    if src.Node? then
      var base := Base(src, slot);
      if base.Node? then
        base.(fields := map k | k in src.fields.Keys + base.fields.Keys ::
          if k in src.fields then Merged(src.fields[k], At(base, k)) else base.fields[k])
      else base
    else if slot.None? || Falsy(slot.value) || TypeOf(src) == TypeOf(slot.value) then src
    else slot.value
  }

  /** Somewhere a container with entries meets a truthy scalar: the assignment to
      a property of the scalar raises. */
  predicate Clashes(src: Value, slot: Option<Value>)
    decreases src
  {
    && src.Node?
    && var base := Base(src, slot);
       if base.Node? then exists k :: k in src.fields && Clashes(src.fields[k], At(base, k))
       else src.fields != map[]
  }

  /** A container copied into nothing is copied exactly. */
  lemma {:induction false} CopyIsExact(src: Value)
    ensures Merged(src, None) == src && !Clashes(src, None)
    decreases src
  {
    if src.Node? {
      forall k | k in src.fields ensures Merged(src.fields[k], None) == src.fields[k] && !Clashes(src.fields[k], None) {
        CopyIsExact(src.fields[k]);
      }
      assert Merged(src, None).fields == src.fields;
    }
  }

  /** Merging a second time changes nothing. */
  lemma {:induction false} MergeIsIdempotent(src: Value, slot: Option<Value>)
    ensures Merged(src, Some(Merged(src, slot))) == Merged(src, slot)
    ensures !Clashes(src, slot) ==> !Clashes(src, Some(Merged(src, slot)))
    decreases src
  {
    var once := Merged(src, slot);
    if src.Node? && Base(src, slot).Node? {
      forall k | k in src.fields
        ensures Merged(src.fields[k], At(once, k)) == once.fields[k]
        ensures !Clashes(src, slot) ==> !Clashes(src.fields[k], At(once, k))
      {
        MergeIsIdempotent(src.fields[k], At(Base(src, slot), k));
        assert At(once, k) == Some(once.fields[k]);
      }
      assert Merged(src, Some(once)).fields == once.fields;
    }
  }

  /** The value at a path of own keys. */
  function Lookup(v: Value, path: seq<string>): Option<Value>
  {
    if path == [] then Some(v)
    else if v.Node? && path[0] in v.fields then Lookup(v.fields[path[0]], path[1..])
    else None
  }

  lemma {:induction false} LookupConcat(v: Value, p: seq<string>, q: seq<string>)
    ensures Lookup(v, p + q) == if Lookup(v, p).Some? then Lookup(Lookup(v, p).value, q) else None
    decreases |p|
  {
    if p == [] {
      assert p + q == q;
    } else {
      assert (p + q)[1..] == p[1..] + q;
      if v.Node? && p[0] in v.fields { LookupConcat(v.fields[p[0]], p[1..], q); }
    }
  }

  function LookupIn(slot: Option<Value>, path: seq<string>): Option<Value>
  {
    if slot.None? then None else Lookup(slot.value, path)
  }

  /** A null stands somewhere above the path. */
  ghost predicate NullAbove(v: Value, path: seq<string>)
  {
    exists n :: 0 <= n < |path| && Lookup(v, path[..n]) == Some(Null)
  }

  lemma NullAboveStep(v: Value, path: seq<string>)
    ensures NullAbove(v, path) <==>
      path != [] && (v == Null || (v.Node? && path[0] in v.fields && NullAbove(v.fields[path[0]], path[1..])))
  {
    if path != [] {
      assert path[..0] == [];
      forall n | 0 < n < |path| ensures path[..n][0] == path[0] && path[..n][1..] == path[1..][..n - 1] { }
      if v == Null {
        assert Lookup(v, path[..0]) == Some(Null);
      } else if v.Node? && path[0] in v.fields {
        var child, tail := v.fields[path[0]], path[1..];
        if NullAbove(child, tail) {
          var n :| 0 <= n < |tail| && Lookup(child, tail[..n]) == Some(Null);
          assert path[..n + 1][1..] == tail[..n];
          assert Lookup(v, path[..n + 1]) == Some(Null);
        }
        if NullAbove(v, path) {
          var n :| 0 <= n < |path| && Lookup(v, path[..n]) == Some(Null);
          assert n > 0 && Lookup(child, tail[..n - 1]) == Some(Null);
        }
      }
    }
  }

  /** The merge law at every path of any two trees whose merge does not raise:
      what the config has is merged with what the template has at that very path;
      the rest of the template stays as it is, except below a null. */
  lemma {:induction false} MergeLaw(src: Value, slot: Option<Value>, path: seq<string>)
    requires !Clashes(src, slot)
    ensures Lookup(Merged(src, slot), path)
            == if Lookup(src, path).Some? then Some(Merged(Lookup(src, path).value, LookupIn(slot, path)))
               else if NullAbove(src, path) then None
               else LookupIn(slot, path)
    decreases |path|
  {
    NullAboveStep(src, path);
    if path != [] && src.Node? && Base(src, slot).Node? && path[0] in src.fields {
      MergeLaw(src.fields[path[0]], At(Base(src, slot), path[0]), path[1..]);
    }
  }

  /** At this path the config has a container with entries and the template a
      truthy scalar. */
  predicate ClashAt(src: Value, slot: Option<Value>, path: seq<string>)
  {
    && Lookup(src, path).Some? && Lookup(src, path).value.Node? && Lookup(src, path).value.fields != map[]
    && LookupIn(slot, path).Some? && !LookupIn(slot, path).value.Node? && !Falsy(LookupIn(slot, path).value)
  }

  /** A merge raises if and only if there is such a path. */
  lemma {:induction false} ClashesIff(src: Value, slot: Option<Value>)
    ensures Clashes(src, slot) <==> exists path :: ClashAt(src, slot, path)
    decreases src
  {
    if src.Node? {
      var base := Base(src, slot);
      if base.Node? {
        forall k | k in src.fields ensures Clashes(src.fields[k], At(base, k)) <==> exists p :: ClashAt(src.fields[k], At(base, k), p) {
          ClashesIff(src.fields[k], At(base, k));
        }
        if k :| k in src.fields && Clashes(src.fields[k], At(base, k)) {
          var p :| ClashAt(src.fields[k], At(base, k), p);
          assert ([k] + p)[0] == k && ([k] + p)[1..] == p;
          assert ClashAt(src, slot, [k] + p);
        }
        if p :| ClashAt(src, slot, p) {
          assert p != [] && ClashAt(src.fields[p[0]], At(base, p[0]), p[1..]);
        }
      } else {
        if src.fields != map[] { assert ClashAt(src, slot, []); }
        if p :| ClashAt(src, slot, p) { assert p == []; }
      }
    }
  }

  /** The falsy template slots, one by one, give way to any scalar; a truthy one
      stands against another `typeof` and gives way to its own. */
  lemma SlotsOneByOne(x: real, y: real, text: string, b: bool)
    ensures forall src: Value :: !src.Node? ==>
      && Merged(src, None) == src && Merged(src, Some(Str(""))) == src && Merged(src, Some(Num(0.0))) == src
      && Merged(src, Some(Bool(false))) == src && Merged(src, Some(Null)) == src
    ensures text != "" ==> Merged(Num(x), Some(Str(text))) == Str(text) && Merged(Null, Some(Str(text))) == Str(text)
    ensures y != 0.0 ==> Merged(Num(x), Some(Num(y))) == Num(x) && Merged(Bool(b), Some(Num(y))) == Num(y)
    ensures Merged(Str(text), Some(Bool(true))) == Bool(true) && Merged(Bool(b), Some(Bool(true))) == Bool(b)
    ensures Merged(Str(text), Some(Node(b, map[]))) == Node(b, map[]) && Merged(Null, Some(Node(b, map[]))) == Null
  {
  }

  /** Every key of the config is a key of the merged tree, at every level. */
  lemma ConfigKeysKept(src: Value, slot: Option<Value>, path: seq<string>)
    requires !Clashes(src, slot) && Lookup(src, path).Some?
    ensures Lookup(Merged(src, slot), path).Some?
  {
    MergeLaw(src, slot, path);
  }

  /** A key of the template is lost if and only if the config has a null above it. */
  lemma {:induction false} TemplateKeysKeptIff(src: Value, dst: Value, path: seq<string>)
    requires Lookup(dst, path).Some?
    ensures Lookup(Merged(src, Some(dst)), path).Some? <==> !NullAbove(src, path)
    decreases |path|
  {
    NullAboveStep(src, path);
    if path != [] && src.Node? && path[0] in src.fields {
      TemplateKeysKeptIff(src.fields[path[0]], dst.fields[path[0]], path[1..]);
    }
  }

  /** A key left blank in the config erases the whole mapping of the template
      under it, and nothing raises. */
  lemma NullLosesKeys(isArray: bool, a: string, b: string, v: Value)
    ensures var src, dst := Node(isArray, map[a := Null]), Node(isArray, map[a := Node(false, map[b := v])]);
            !Clashes(src, Some(dst)) && Lookup(dst, [a, b]) == Some(v) && Lookup(Merged(src, Some(dst)), [a, b]) == None
  {
    var src, dst := Node(isArray, map[a := Null]), Node(isArray, map[a := Node(false, map[b := v])]);
    assert [a, b][1..] == [b] && [b][1..] == [];
    assert Lookup(dst.fields[a], [b]) == Some(v);
    assert Merged(src, Some(dst)).fields[a] == Null;
  }

  /** Everything of the template below a path that the config lacks, and has no
      null above, is kept. */
  lemma TemplateKept(src: Value, dst: Value, path: seq<string>, below: seq<string>)
    requires !Clashes(src, Some(dst)) && Lookup(src, path) == None && !NullAbove(src, path)
    ensures Lookup(Merged(src, Some(dst)), path + below) == Lookup(dst, path + below)
  {
    MergeLaw(src, Some(dst), path);
    LookupConcat(Merged(src, Some(dst)), path, below);
    LookupConcat(dst, path, below);
  }

  /** At every path where the config has a scalar, the scalar wins exactly if the
      template has nothing there, or something falsy or of the same `typeof`, or
      the scalar itself; otherwise the template's value stays. */
  lemma ScalarRule(src: Value, dst: Value, path: seq<string>, v: Value)
    requires !Clashes(src, Some(dst)) && Lookup(src, path) == Some(v) && !v.Node?
    ensures var t, merged := Lookup(dst, path), Lookup(Merged(src, Some(dst)), path);
            && (merged == Some(v) <==> t.None? || Falsy(t.value) || TypeOf(v) == TypeOf(t.value) || t == Some(v))
            && (merged != Some(v) ==> merged == t)
  {
    MergeLaw(src, Some(dst), path);
  }

  // ---- reading and writing along a path --------------------------------------

  datatype Access = Found(value: Value) | Undefined | TypeError

  /** `cursor = cursor[component]` along the path: a missing key or a key of a
      scalar is undefined, a key of null raises. */
  function Read(v: Value, path: seq<string>): Access
  {
    if path == [] then Found(v)
    else
      match v
      case Null => TypeError
      case Node(_, fields) => if path[0] in fields then Read(fields[path[0]], path[1..]) else Undefined
      case _ => Undefined
  }

  /** Writing at the path, creating the objects missing on the way. `None` when a
      property of a scalar would have to be assigned. */
  function Write(v: Value, path: seq<string>, x: Value): Option<Value>
    requires path != []
    decreases |path|
  {
    if !v.Node? then None
    else if |path| == 1 then Some(v.(fields := v.fields[path[0] := x]))
    else
      var child := if path[0] in v.fields then v.fields[path[0]] else Node(false, map[]);
      match Write(child, path[1..], x)
      case None => None
      case Some(child') => Some(v.(fields := v.fields[path[0] := child']))
  }

  /** Reading along a path, whole: what is there; a raise below a null; else
      undefined. */
  lemma {:induction false} ReadIs(v: Value, path: seq<string>)
    ensures Read(v, path) == if Lookup(v, path).Some? then Found(Lookup(v, path).value)
                             else if NullAbove(v, path) then TypeError else Undefined
  {
    NullAboveStep(v, path);
    if path != [] && v.Node? && path[0] in v.fields { ReadIs(v.fields[path[0]], path[1..]); }
  }

  /** Reading back what was written. */
  lemma {:induction false} ReadAfterWrite(v: Value, path: seq<string>, x: Value)
    requires path != [] && Write(v, path, x).Some?
    ensures Read(Write(v, path, x).value, path) == Found(x)
    decreases |path|
  {
    if |path| > 1 {
      ReadAfterWrite(if path[0] in v.fields then v.fields[path[0]] else Node(false, map[]), path[1..], x);
    }
  }

  /** The paths part before either ends. */
  ghost predicate Apart(p: seq<string>, q: seq<string>) { !(p <= q) && !(q <= p) }

  /** Every path that is neither a prefix nor an extension of the one written reads
      as before, even when objects were created on the way. */
  lemma {:induction false} WriteElsewhere(v: Value, path: seq<string>, x: Value, q: seq<string>)
    requires path != [] && Write(v, path, x).Some? && Apart(path, q)
    ensures Read(Write(v, path, x).value, q) == Read(v, q)
    decreases |path|
  {
    if path[0] == q[0] {
      assert Apart(path[1..], q[1..]) by {
        assert path == [path[0]] + path[1..] && q == [q[0]] + q[1..];
      }
      var child := if path[0] in v.fields then v.fields[path[0]] else Node(false, map[]);
      WriteElsewhere(child, path[1..], x, q[1..]);
    }
  }

  /** Writing what is there already changes nothing. */
  lemma {:induction false} WriteSame(v: Value, path: seq<string>)
    requires path != [] && Read(v, path).Found?
    ensures Write(v, path, Read(v, path).value) == Some(v)
  {
    var k := path[0];
    if |path| > 1 { WriteSame(v.fields[k], path[1..]); }
    assert v.fields[k := v.fields[k]] == v.fields;
  }

  /** Writing raises exactly if a scalar stands at a proper prefix of the path. */
  lemma {:induction false} WriteRaisesIff(v: Value, path: seq<string>, x: Value)
    requires path != []
    ensures Write(v, path, x) == None <==>
      exists n :: 0 <= n < |path| && Read(v, path[..n]).Found? && !Read(v, path[..n]).value.Node?
    decreases |path|
  {
    if !v.Node? {
      assert path[..0] == [];
      assert Read(v, path[..0]) == Found(v);
    } else if |path| == 1 {
      assert path[..0] == [];
    } else {
      var k := path[0];
      var child := if k in v.fields then v.fields[k] else Node(false, map[]);
      WriteRaisesIff(child, path[1..], x);
      forall n | 0 < n < |path|
        ensures path[..n][1..] == path[1..][..n - 1] && path[..n][0] == k
      {}
      if Write(child, path[1..], x) == None {
        var n :| 0 <= n < |path[1..]| && Read(child, path[1..][..n]).Found? && !Read(child, path[1..][..n]).value.Node?;
        if k in v.fields {
          assert path[..n + 1][1..] == path[1..][..n];
          assert Read(v, path[..n + 1]) == Read(child, path[1..][..n]);
        } else {
          EmptyReads(path[1..][..n]);
        }
      }
      if n :| 0 <= n < |path| && Read(v, path[..n]).Found? && !Read(v, path[..n]).value.Node? {
        assert path[..0] == [];
        assert n > 0;
        assert Read(child, path[1..][..n - 1]) == Read(v, path[..n]);
      }
    }
  }

  lemma EmptyReads(path: seq<string>)
    ensures Read(Node(false, map[]), path) == if path == [] then Found(Node(false, map[])) else Undefined
  {
  }
}
