/** The namespaces and the manager of gateway/src/services/config-manager-v2.ts. The
    JSON schema is an arbitrary predicate; files are the values read from them. */
module ConfigManager {
  import opened Basics
  import Text
  import opened ConfigTree

  datatype Error = SchemaViolation | RaisedTypeError | TooFewComponents | NoNamespace

  datatype Result<+T> = Ok(value: T) | Err(error: Error)

  /** The entries of src outside rest have been copied into fields. */
  ghost predicate Copied(src: Value, dst: Value, rest: set<string>, fields: map<string, Value>)
    requires src.Node? && dst.Node?
  {
    && rest <= src.fields.Keys && fields.Keys == dst.fields.Keys + (src.fields.Keys - rest)
    && (forall k :: k in fields ==>
         fields[k] == if k in src.fields && k !in rest then Merged(src.fields[k], At(dst, k)) else dst.fields[k])
    && (forall k :: k in src.fields && k !in rest ==> !Clashes(src.fields[k], At(dst, k)))
  }

  lemma NothingCopied(src: Value, dst: Value)
    requires src.Node? && dst.Node?
    ensures Copied(src, dst, src.fields.Keys, dst.fields)
  {
  }

  lemma AllCopied(src: Value, dst: Value, fields: map<string, Value>)
    requires src.Node? && dst.Node? && Copied(src, dst, {}, fields)
    ensures !Clashes(src, Some(dst)) && Merged(src, Some(dst)) == dst.(fields := fields)
  {
    assert Base(src, Some(dst)) == dst;
    assert fields == Merged(src, Some(dst)).fields;
  }

  lemma OneClashes(src: Value, dst: Value, key: string)
    requires src.Node? && dst.Node? && key in src.fields && Clashes(src.fields[key], At(dst, key))
    ensures Clashes(src, Some(dst))
  {
  }

  lemma OneCopied(src: Value, dst: Value, rest: set<string>, fields: map<string, Value>, key: string, copied: Value)
    requires src.Node? && dst.Node? && Copied(src, dst, rest, fields) && key in rest
    requires !Clashes(src.fields[key], At(dst, key)) && copied == Merged(src.fields[key], At(dst, key))
    ensures Copied(src, dst, rest - {key}, fields[key := copied])
  {
    hide Merged, Clashes;
  }

  /** What a scalar leaves in the slot: itself or what was there. */
  lemma ScalarCopied(src: Value, dst: Value, rest: set<string>, fields: map<string, Value>, key: string)
    requires src.Node? && dst.Node? && Copied(src, dst, rest, fields) && key in rest && !src.fields[key].Node?
    ensures var value, slot := src.fields[key], At(dst, key);
            var wins := slot.None? || Falsy(slot.value) || TypeOf(value) == TypeOf(slot.value);
            Copied(src, dst, rest - {key}, if wins then fields[key := value] else fields)
  {
    var value, slot := src.fields[key], At(dst, key);
    if slot.Some? && Merged(value, slot) == slot.value {
      assert fields[key] == slot.value;
      assert fields[key := slot.value] == fields;
    }
    OneCopied(src, dst, rest, fields, key, Merged(value, slot));
  }

  /** deepCopy, entry by entry in whatever order; `dst` is what stands in the slot
      after a missing or falsy one was replaced. */
  method DeepCopy(src: Value, dst: Value) returns (r: Result<Value>)
    requires src.Node? && !Falsy(dst)
    ensures r == if Clashes(src, Some(dst)) then Err(RaisedTypeError) else Ok(Merged(src, Some(dst)))
    decreases src
  {
    if !dst.Node? { return if src.fields == map[] then Ok(dst) else Err(RaisedTypeError); }
    hide Merged, Clashes, Copied;
    var fields, rest := dst.fields, src.fields.Keys;
    NothingCopied(src, dst);
    while rest != {}
      invariant rest <= src.fields.Keys && Copied(src, dst, rest, fields)
    {
      var key :| key in rest;
      var value := src.fields[key];
      if value.Node? {
        var slot := if key in dst.fields && !Falsy(dst.fields[key]) then dst.fields[key] else Node(value.isArray, map[]);
        SlotIsBase(value, At(dst, key), slot);
        var copied := DeepCopy(value, slot);
        if copied.Err? {
          OneClashes(src, dst, key);
          return copied;
        }
        OneCopied(src, dst, rest, fields, key, copied.value);
        fields := fields[key := copied.value];
      } else {
        ScalarCopied(src, dst, rest, fields, key);
        if key !in dst.fields || Falsy(dst.fields[key]) || TypeOf(value) == TypeOf(dst.fields[key]) {
          fields := fields[key := value];
        }
      }
      rest := rest - {key};
    }
    AllCopied(src, dst, fields);
    r := Ok(dst.(fields := fields));
  }

  lemma SlotIsBase(value: Value, slot: Option<Value>, base: Value)
    requires value.Node? && base == Base(value, slot) && !Falsy(base)
    ensures Merged(value, Some(base)) == Merged(value, slot) && (Clashes(value, Some(base)) <==> Clashes(value, slot))
  {
    assert Base(value, Some(base)) == base;
  }

  /** Object.entries(): none of nothing, the characters of a text. */
  function Entries(v: Option<Value>): Option<map<string, Value>>
  {
    match v
    case None => None
    case Some(Null) => None
    case Some(Node(_, fields)) => Some(fields)
    case Some(Str(s)) => Some(Characters(s))
    case Some(_) => Some(map[])
  }

  function Characters(s: string): map<string, Value>
  {
    if s == "" then map[] else Characters(s[..|s| - 1])[Text.NatText(|s| - 1) := Str([s[|s| - 1]])]
  }

  /** What deepCopy makes of a template: it raises on a config without entries to
      list, and when there is an entry for a template that cannot hold it. */
  function Repaired(config: Option<Value>, template: Option<Value>): Result<Option<Value>>
  {
    match Entries(config)
    case None => Err(RaisedTypeError)
    case Some(fields) =>
      if template.None? || !template.value.Node? then (if fields == map[] then Ok(template) else Err(RaisedTypeError))
      else if Clashes(Node(false, fields), template) then Err(RaisedTypeError)
      else Ok(Some(Merged(Node(false, fields), template)))
  }

  method CopyIntoTemplate(config: Option<Value>, template: Option<Value>) returns (r: Result<Option<Value>>)
    ensures r == Repaired(config, template)
  {
    var entries := Entries(config);
    if entries.None? { return Err(RaisedTypeError); }
    if template.None? || !template.value.Node? {
      return if entries.value == map[] then Ok(template) else Err(RaisedTypeError);
    }
    var copied := DeepCopy(Node(false, entries.value), template.value);
    r := if copied.Err? then Err(copied.error) else Ok(Some(copied.value));
  }

  /** Documents that are no container: an empty or null config raises, a number or
      a truth value leaves the template as it is, a text is copied in character by
      character; and a config with entries raises without a template to hold them. */
  lemma RepairedOddDocuments(template: Option<Value>, x: real, b: bool, config: Value)
    ensures Repaired(None, template) == Err(RaisedTypeError) == Repaired(Some(Null), template)
    ensures Repaired(Some(Num(x)), Some(Node(b, map[]))) == Ok(Some(Node(b, map[])))
    ensures template.Some? && !template.value.Node? ==>
      Repaired(Some(Num(x)), template) == Ok(template) == Repaired(Some(Bool(b)), template)
    ensures Repaired(Some(Str("a")), Some(Node(b, map[]))) == Ok(Some(Node(b, map["0" := Str("a")])))
    ensures config.Node? && config.fields != map[] && (template.None? || !template.value.Node?) ==>
      Repaired(Some(config), template) == Err(RaisedTypeError)
  {
    var empty := Some(Node(b, map[]));
    assert Merged(Node(false, map[]), empty).fields == map[];
    assert "a"[..0] == "" && Text.NatText(0) == "0" && Characters("a") == map["0" := Str("a")];
    assert Merged(Node(false, Characters("a")), empty).fields == map["0" := Str("a")];
  }

  /** The kind of the config's own container does not matter at the top. */
  lemma RepairedContainer(config: Value, template: Value)
    requires config.Node? && template.Node?
    ensures Repaired(Some(config), Some(template))
            == if Clashes(config, Some(template)) then Err(RaisedTypeError) else Ok(Some(Merged(config, Some(template))))
  {
  }

  class ConfigurationNamespace {
    const id: string
    const validator: Value -> bool
    var configuration: Value

    /** loadConfig on what a config file and its template hold, `None` being an
        empty file: a config that breaks the schema is merged into the template
        and judged again. The schemas demand an object, so never accept `None`. */
    static method Load(id: string, validator: Value -> bool, config: Option<Value>, template: Option<Value>)
      returns (r: Result<ConfigurationNamespace>)
      ensures r.Ok? ==> fresh(r.value) && r.value.id == id && r.value.validator == validator
      ensures r.Ok? ==> validator(r.value.configuration)
      ensures var valid, repaired := config.Some? && validator(config.value), Repaired(config, template);
        && (r.Ok? <==> valid || (repaired.Ok? && repaired.value.Some? && validator(repaired.value.value)))
        && (r.Ok? ==> r.value.configuration == if valid then config.value else repaired.value.value)
        && (r == Err(RaisedTypeError) <==> !valid && repaired.Err?)
    {
      if config.Some? && validator(config.value) {
        var accepted := new ConfigurationNamespace(id, validator, config.value);
        return Ok(accepted);
      }
      var candidate := CopyIntoTemplate(config, template);
      if candidate.Err? { return Err(RaisedTypeError); }
      if candidate.value.None? || !validator(candidate.value.value) { return Err(SchemaViolation); }
      var namespace := new ConfigurationNamespace(id, validator, candidate.value.value);
      r := Ok(namespace);
    }

    constructor (id: string, validator: Value -> bool, configuration: Value)
      ensures this.id == id && this.validator == validator && this.configuration == configuration
    {
      this.id, this.validator, this.configuration := id, validator, configuration;
    }

    method Get(configPath: string) returns (r: Access)
      ensures r == Read(configuration, Text.Split(configPath, '.'))
    {
      r := WalkPath(configuration, Text.Split(configPath, '.'));
    }

    /** A set that is refused, or that raises, leaves the configuration as it was. */
    method Set(configPath: string, value: Value) returns (r: Result<()>)
      modifies this
      ensures var written := Write(old(configuration), Text.Split(configPath, '.'), value);
        && (r.Ok? <==> written.Some? && validator(written.value))
        && (r.Ok? ==> configuration == written.value)
        && (r.Err? ==> configuration == old(configuration))
        && (r == Err(RaisedTypeError) <==> written == None)
    {
      var clone := Write(configuration, Text.Split(configPath, '.'), value);
      if clone.None? { return Err(RaisedTypeError); }
      if !validator(clone.value) { return Err(SchemaViolation); }
      configuration := clone.value;
      r := Ok(());
    }
  }

  /** Nothing stands at the path, and no null above it. */
  ghost predicate Missing(tree: Value, path: seq<string>) { Lookup(tree, path) == None && !NullAbove(tree, path) }

  /** A null stands above the path. */
  ghost predicate Raises(tree: Value, path: seq<string>) { Lookup(tree, path) == None && NullAbove(tree, path) }

  /** The cursor loop of get and getFromDefaults. */
  method WalkPath(tree: Value, path: seq<string>) returns (r: Access)
    ensures r == Read(tree, path)
  {
    var cursor := tree;
    for i := 0 to |path|
      invariant Read(tree, path) == Read(cursor, path[i..])
    {
      assert path[i..][1..] == path[i + 1..];
      match cursor
      case Null => return TypeError;
      case Node(_, fields) =>
        if path[i] !in fields { return Undefined; }
        cursor := fields[path[i]];
      case _ => return Undefined;
    }
    r := Found(cursor);
  }

  class ConfigManagerV2 {
    var namespaces: map<string, ConfigurationNamespace>
    var defaults: map<string, Value>

    constructor (namespaces: map<string, ConfigurationNamespace>)
      ensures this.namespaces == namespaces && defaults == map[]
    {
      this.namespaces, this.defaults := namespaces, map[];
    }

    /** From then on every path that the namespace itself has nothing at stands for
        the default there; all else stands for what it stood for. */
    method SetDefaults(namespaceId: string, defaultTree: Value)
      modifies `defaults
      ensures defaults == old(defaults)[namespaceId := defaultTree]
      ensures forall q: string, v :: Unset(q, namespaceId) && Lookup(defaultTree, Text.Split(q, '.')[1..]) == Some(v) ==>
        Resolve(q) == Ok(Found(v))
      ensures forall q: string :: !Unset(q, namespaceId) ==> Resolve(q) == old(Resolve(q))
    {
      forall q: string, v | Unset(q, namespaceId) && Lookup(defaultTree, Text.Split(q, '.')[1..]) == Some(v)
        ensures Read(defaultTree, Text.Split(q, '.')[1..]) == Found(v)
      {
        ReadIs(defaultTree, Text.Split(q, '.')[1..]);
      }
      forall q: string | |Text.Split(q, '.')| >= 2 && Text.Split(q, '.')[0] in namespaces
        ensures var tree, path := namespaces[Text.Split(q, '.')[0]].configuration, Text.Split(q, '.')[1..];
          Read(tree, path) == Undefined <==> Missing(tree, path)
      {
        ReadIs(namespaces[Text.Split(q, '.')[0]].configuration, Text.Split(q, '.')[1..]);
      }
      defaults := defaults[namespaceId := defaultTree];
    }

    method GetFromDefaults(namespaceId: string, configPath: string) returns (r: Access)
      ensures r == if namespaceId in defaults then Read(defaults[namespaceId], Text.Split(configPath, '.')) else Undefined
    {
      if namespaceId !in defaults { return Undefined; }
      r := WalkPath(defaults[namespaceId], Text.Split(configPath, '.'));
    }

    method UnpackFullConfigPath(fullConfigPath: string) returns (r: Result<(ConfigurationNamespace, string)>)
      ensures var parts := Text.Split(fullConfigPath, '.');
        r == if |parts| < 2 then Err(TooFewComponents)
             else if parts[0] !in namespaces then Err(NoNamespace)
             else Ok((namespaces[parts[0]], Text.Join(parts[1..], '.')))
    {
      var parts := Text.Split(fullConfigPath, '.');
      if |parts| < 2 { return Err(TooFewComponents); }
      if parts[0] !in namespaces { return Err(NoNamespace); }
      r := Ok((namespaces[parts[0]], Text.Join(parts[1..], '.')));
    }

    /** The path leads to a namespace of this id that has nothing there. */
    ghost predicate Unset(fullConfigPath: string, namespaceId: string)
      reads this, set name | name in namespaces :: namespaces[name]
    {
      var parts := Text.Split(fullConfigPath, '.');
      |parts| >= 2 && parts[0] in namespaces && namespaces[parts[0]].id == namespaceId
      && Missing(namespaces[parts[0]].configuration, parts[1..])
    }

    /** What a full path stands for: the namespace's value at the rest of the path,
        or its default exactly if the namespace has none. */
    ghost function Resolve(fullConfigPath: string): Result<Access>
      reads this, set name | name in namespaces :: namespaces[name]
    {
      var parts := Text.Split(fullConfigPath, '.');
      if |parts| < 2 then Err(TooFewComponents)
      else if parts[0] !in namespaces then Err(NoNamespace)
      else
        var namespace := namespaces[parts[0]];
        var own := Read(namespace.configuration, parts[1..]);
        Ok(if own != Undefined then own
           else if namespace.id in defaults then Read(defaults[namespace.id], parts[1..])
           else Undefined)
    }

    /** Two full paths that lead to different namespaces, or apart in one. */
    ghost predicate Separate(p: string, q: string)
      reads this
    {
      var ps, qs := Text.Split(p, '.'), Text.Split(q, '.');
      |ps| >= 2 && |qs| >= 2 && ps[0] in namespaces && qs[0] in namespaces && namespaces[ps[0]] == namespaces[qs[0]] ==>
        Apart(ps[1..], qs[1..])
    }

    /** The namespace's own value; the default exactly where it has none; undefined
        where neither has one; a raise below a null of whichever is asked last. */
    method Get(fullConfigPath: string) returns (r: Result<Access>)
      ensures r == Resolve(fullConfigPath)
      ensures var parts := Text.Split(fullConfigPath, '.');
        && (r == Err(TooFewComponents) <==> |parts| < 2)
        && (r == Err(NoNamespace) <==> |parts| >= 2 && parts[0] !in namespaces)
        && (|parts| >= 2 && parts[0] in namespaces ==>
             var namespace, path := namespaces[parts[0]], parts[1..];
             && (forall v :: r == Ok(Found(v)) <==>
                  || Lookup(namespace.configuration, path) == Some(v)
                  || (Missing(namespace.configuration, path) && namespace.id in defaults
                      && Lookup(defaults[namespace.id], path) == Some(v)))
             && (r == Ok(TypeError) <==>
                  || Raises(namespace.configuration, path)
                  || (Missing(namespace.configuration, path) && namespace.id in defaults
                      && Raises(defaults[namespace.id], path)))
             && (r == Ok(Undefined) <==>
                  Missing(namespace.configuration, path)
                  && (namespace.id in defaults ==> Missing(defaults[namespace.id], path))))
    {
      RestOfPath(fullConfigPath);
      var unpacked := UnpackFullConfigPath(fullConfigPath);
      if unpacked.Err? { return Err(unpacked.error); }
      var (namespace, configPath) := unpacked.value;
      var own := namespace.Get(configPath);
      ReadIs(namespace.configuration, Text.Split(fullConfigPath, '.')[1..]);
      if namespace.id in defaults { ReadIs(defaults[namespace.id], Text.Split(fullConfigPath, '.')[1..]); }
      if own == Undefined { own := GetFromDefaults(namespace.id, configPath); }
      r := Ok(own);
    }

    /** After an accepted set a get of the same path gives the value, never the
        default, and every separate path stands for what it stood for; a set that
        is not accepted changes what no path stands for. */
    method Set(fullConfigPath: string, value: Value) returns (r: Result<()>)
      modifies set name | name in namespaces :: namespaces[name]
      ensures var parts := Text.Split(fullConfigPath, '.');
        if |parts| < 2 then r == Err(TooFewComponents)
        else if parts[0] !in namespaces then r == Err(NoNamespace)
        else
          var namespace := namespaces[parts[0]];
          var written := Write(old(namespace.configuration), parts[1..], value);
          && (r.Ok? <==> written.Some? && namespace.validator(written.value))
          && namespace.configuration == if r.Ok? then written.value else old(namespace.configuration)
      ensures forall name | name in namespaces && namespaces[name].configuration != old(namespaces[name].configuration) ::
        r.Ok? && namespaces[name] == namespaces[Text.Split(fullConfigPath, '.')[0]]
      ensures r.Ok? ==> Resolve(fullConfigPath) == Ok(Found(value))
      ensures forall q: string :: r.Err? || Separate(fullConfigPath, q) ==> Resolve(q) == old(Resolve(q))
    {
      RestOfPath(fullConfigPath);
      var unpacked := UnpackFullConfigPath(fullConfigPath);
      if unpacked.Err? { return Err(unpacked.error); }
      var (namespace, configPath) := unpacked.value;
      ghost var was, path := namespace.configuration, Text.Split(fullConfigPath, '.')[1..];
      r := namespace.Set(configPath, value);
      if r.Ok? {
        ReadAfterWrite(was, path, value);
        forall q: string | Separate(fullConfigPath, q) ensures Resolve(q) == old(Resolve(q)) {
          var qs := Text.Split(q, '.');
          if |qs| >= 2 && qs[0] in namespaces && namespaces[qs[0]] == namespace {
            WriteElsewhere(was, path, value, qs[1..]);
          }
        }
      }
    }
  }

  /** Joining and splitting again gives the rest of the components. */
  lemma RestOfPath(fullConfigPath: string)
    ensures var parts := Text.Split(fullConfigPath, '.');
      |parts| >= 2 ==> Text.Split(Text.Join(parts[1..], '.'), '.') == parts[1..]
  {
    var parts := Text.Split(fullConfigPath, '.');
    Text.JoinSplit(fullConfigPath, '.');
    if |parts| >= 2 { Text.SplitJoin(parts[1..], '.'); }
  }
}
