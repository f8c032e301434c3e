/** Configuration lookup: the parsed YAML cluster file as a nested value,
    and `_get_config`, which reads a dot-separated key path from it with a
    default. */
module ConfigLookup {
  import opened Results
  import opened Text

  /** A parsed YAML value. Mappings keep their keys in file order. */
  datatype Value =
    | Null
    | Bool(b: bool)
    | Int(i: int)
    | Str(s: string)
    | List(items: seq<Value>)
    | Dict(entries: seq<Entry>)

  datatype Entry = Entry(key: string, val: Value)

  /** Python raises TypeError when `key in container` or `container[key]`
      is applied to a value that is not a mapping. */
  datatype LookupError = TypeError

  /** Python truthiness of a value (`if value:`). */
  predicate Truthy(v: Value) {
    match v
    case Null => false
    case Bool(b) => b
    case Int(i) => i != 0
    case Str(s) => s != ""
    case List(items) => items != []
    case Dict(entries) => entries != []
  }

  /** The value stored under `key` in a mapping, if any. */
  function Find(entries: seq<Entry>, key: string): (r: Option<Value>)
    ensures r.None? <==> forall i :: 0 <= i < |entries| ==> entries[i].key != key
    ensures r.Some? ==> exists i :: 0 <= i < |entries| && entries[i] == Entry(key, r.value)
  {
    if |entries| == 0 then None
    else if entries[0].key == key then Some(entries[0].val)
    else Find(entries[1..], key)
  }

  function Keys(entries: seq<Entry>): (ks: seq<string>)
    ensures |ks| == |entries|
    ensures forall i :: 0 <= i < |entries| ==> ks[i] == entries[i].key
  {
    if |entries| == 0 then [] else [entries[0].key] + Keys(entries[1..])
  }

  /** The first segment of a dotted key. */
  function Head(key: string): string {
    if '.' in key then key[..IndexOf(key, '.')] else key
  }

  /** The key minus its first segment and dot. */
  function Tail(key: string): (t: string)
    requires '.' in key
    ensures |t| < |key|
  {
    key[IndexOf(key, '.') + 1..]
  }

  /** `key.split(".")`, `keys.pop(0)` and `".".join(keys)` split the key at
      its first dot. */
  lemma HeadTailSplit(key: string)
    requires '.' in key
    ensures Split(key, '.')[0] == Head(key)
    ensures Join(Split(key, '.')[1..], '.') == Tail(key)
  {
    var k := IndexOf(key, '.');
    var rest := key[k + 1..];
    var parts := Split(key, '.');
    assert parts == [key[..k]] + Split(rest, '.');
    assert parts[1..] == Split(rest, '.');
    JoinSplit(rest, '.');
  }

  /** The membership test `key in container` followed, when it holds, by
      `container[key]`, for a container that is not a mapping: a string tests
      for a substring, a list for an equal element, anything else raises. */
  function NonMappingLookup(head: string, default: Value, container: Value): Result<Value, LookupError>
    requires !container.Dict? && !container.Null?
  {
    match container
    case Str(s) => if IsSubstring(head, s) then Err(TypeError) else Ok(default)
    case List(items) => if Str(head) in items then Err(TypeError) else Ok(default)
    case _ => Err(TypeError)
  }

  /** `_get_config(key, default)` as written. The first statement,
      `config = self._config if config is None else config`, runs on every
      recursive call as well, so a null value met half way down the path
      restarts the lookup of the remaining segments at the root. */
  function GetConfigAsWritten(key: string, default: Value, config: Value, root: Value): Result<Value, LookupError>
    decreases |key|
  {
    var c := if config.Null? then root else config;
    var head := Head(key);
    if c.Dict? then
      match Find(c.entries, head)
      case None => Ok(default)
      case Some(v) =>
        if '.' in key then GetConfigAsWritten(Tail(key), default, v, root)
        else Ok(if v.Null? then default else v)
    else if c.Null? then Err(TypeError)
    else NonMappingLookup(head, default, c)
  }

  /** `_get_config(key, default)` as evidently intended: a null value half
      way down the path is a missing subtree, so the default comes back. */
  function GetConfig(key: string, default: Value, config: Value): Result<Value, LookupError>
    decreases |key|
  {
    var head := Head(key);
    if config.Dict? then
      match Find(config.entries, head)
      case None => Ok(default)
      case Some(v) =>
        if '.' in key then GetConfig(Tail(key), default, v)
        else Ok(if v.Null? then default else v)
    else if config.Null? then Ok(default)
    else NonMappingLookup(head, default, config)
  }

  /** Which reading of `_get_config` a caller runs: the code as written, or
      the lookup as evidently intended. */
  datatype Reading = AsWritten | AsIntended

  /** `_get_config(key, default)` on the cluster file `root`. */
  function Lookup(reading: Reading, key: string, default: Value, root: Value): Result<Value, LookupError> {
    match reading
    case AsWritten => GetConfigAsWritten(key, default, root, root)
    case AsIntended => GetConfig(key, default, root)
  }

  /** `_get_group_config(group, key, default)`. */
  function GroupConfig(reading: Reading, root: Value, group: string, key: string, default: Value): Result<Value, LookupError> {
    Lookup(reading, "nodes." + group + "." + key, default, root)
  }

  /** No segment of `key` but the last leads to a null value in `c`. */
  predicate NullFreePath(key: string, c: Value)
    decreases |key|
  {
    '.' in key ==>
      c.Dict? ==>
        match Find(c.entries, Head(key))
        case None => true
        case Some(v) => !v.Null? && NullFreePath(Tail(key), v)
  }

  /** The two readings differ only once a null value is met half way down
      the key: on any other path they agree. */
  lemma {:induction false} ReadingsAgree(key: string, default: Value, c: Value, root: Value)
    requires !c.Null? && NullFreePath(key, c)
    ensures GetConfigAsWritten(key, default, c, root) == GetConfig(key, default, c)
    decreases |key|
  {
    if c.Dict? && '.' in key {
      match Find(c.entries, Head(key))
      case None =>
      case Some(v) => ReadingsAgree(Tail(key), default, v, root);
    }
  }

  /** One segment down a mapping, for either reading. */
  lemma ReadingStep(a: string, b: string, default: Value, c: Value, root: Value)
    requires '.' !in a && c.Dict? && Find(c.entries, a).Some?
    ensures GetConfigAsWritten(a + "." + b, default, c, root)
            == GetConfigAsWritten(b, default, Find(c.entries, a).value, root)
    ensures GetConfig(a + "." + b, default, c) == GetConfig(b, default, Find(c.entries, a).value)
  {
    DottedKey(a, b);
  }

  /** As written, a null container stands for the root of the file. */
  lemma NullRestarts(key: string, default: Value, root: Value)
    ensures GetConfigAsWritten(key, default, Null, root) == GetConfigAsWritten(key, default, root, root)
  {
  }

  /** A group whose body is null: as written, `_get_group_config` reads the
      key at the root of the file; as intended, it yields the default. */
  lemma NullGroupReadsRoot(root: Value, group: string, key: string, default: Value)
    requires root.Dict? && '.' !in group
    requires Find(root.entries, "nodes").Some? && Find(root.entries, "nodes").value.Dict?
    requires Find(Find(root.entries, "nodes").value.entries, group) == Some(Null)
    ensures GroupConfig(AsWritten, root, group, key, default) == Lookup(AsWritten, key, default, root)
    ensures GroupConfig(AsIntended, root, group, key, default) == Ok(default)
  {
    var nodes := Find(root.entries, "nodes").value;
    var k := group + "." + key;
    assert "nodes." + group + "." + key == "nodes" + "." + k;
    ReadingStep("nodes", k, default, root, root);
    ReadingStep(group, key, default, nodes, root);
    NullRestarts(key, default, root);
  }

  // ---------------------------------------------------------------------
  // Reference description over path segments

  /** The value reached by following `path` through nested mappings; None
      once a segment is missing or a non-mapping is met. */
  function Resolve(path: seq<string>, c: Value): Option<Value>
    decreases |path|
  {
    if |path| == 0 then Some(c)
    else if c.Dict? then
      match Find(c.entries, path[0])
      case None => None
      case Some(v) => Resolve(path[1..], v)
    else None
  }

  /** Every container met along `path` is a mapping or null. */
  predicate ThroughMaps(path: seq<string>, c: Value)
    decreases |path|
  {
    |path| == 0 || c.Null? ||
    (c.Dict? && match Find(c.entries, path[0])
                case None => true
                case Some(v) => ThroughMaps(path[1..], v))
  }

  /** The value a lookup yields for a resolved path: the default for a
      missing or null value. */
  function OrDefault(found: Option<Value>, default: Value): Value {
    match found
    case None => default
    case Some(v) => if v.Null? then default else v
  }

  /** Over nested mappings, `_get_config` yields the default when a segment
      is missing or the final value is null, and otherwise the value found by
      descending one segment of the dotted key at a time. */
  lemma {:induction false} GetConfigResolves(key: string, default: Value, c: Value)
    requires ThroughMaps(Split(key, '.'), c)
    ensures GetConfig(key, default, c) == Ok(OrDefault(Resolve(Split(key, '.'), c), default))
    decreases |key|
  {
    var path := Split(key, '.');
    if '.' in key {
      var k := IndexOf(key, '.');
      assert path == [Head(key)] + Split(Tail(key), '.');
      assert path[1..] == Split(Tail(key), '.');
      if c.Dict? {
        match Find(c.entries, Head(key))
        case None =>
        case Some(v) => GetConfigResolves(Tail(key), default, v);
      } else {
        assert c.Null?;
        NullResolvesNowhere(path);
      }
    } else {
      assert path == [key];
      if c.Null? { NullResolvesNowhere(path); }
    }
  }

  lemma NullResolvesNowhere(path: seq<string>)
    requires |path| > 0
    ensures Resolve(path, Null) == None
  {
  }

  /** A value that is neither a mapping, a string, a list nor null raises
      TypeError as soon as a segment is looked up in it. */
  lemma ScalarContainerRaises(key: string, default: Value, c: Value)
    requires c.Int? || c.Bool?
    ensures GetConfig(key, default, c) == Err(TypeError)
    ensures GetConfigAsWritten(key, default, c, c) == Err(TypeError)
  {
  }

  /** Head and tail of a key built as `a.b` with a dot-free `a`. */
  lemma DottedKey(a: string, b: string)
    requires '.' !in a
    ensures '.' in a + "." + b && Head(a + "." + b) == a && Tail(a + "." + b) == b
  {
    IndexOfPrefix(a, "." + b, '.');
    assert a + "." + b == a + ("." + b);
  }

  /** One step down a mapping whose first entry matches the key's head. */
  lemma LookupStep(a: string, b: string, default: Value, v: Value, rest: seq<Entry>)
    requires '.' !in a
    ensures GetConfig(a + "." + b, default, Dict([Entry(a, v)] + rest)) == GetConfig(b, default, v)
  {
    DottedKey(a, b);
  }

  /** The last segment of a path, found in a mapping. */
  lemma LookupLeaf(k: string, default: Value, v: Value, rest: seq<Entry>)
    requires '.' !in k
    ensures GetConfig(k, default, Dict([Entry(k, v)] + rest)) == Ok(if v.Null? then default else v)
  {
  }

  /** A first segment that the mapping lacks. */
  lemma LookupMissing(a: string, b: string, default: Value, k: string, v: Value)
    requires '.' !in a && a != k
    ensures GetConfig(a + "." + b, default, Dict([Entry(k, v)])) == Ok(default)
  {
    DottedKey(a, b);
  }

  lemma ExampleKeys()
    ensures "nodes.control.type" == "nodes" + "." + "control.type"
    ensures "control.type" == "control" + "." + "type"
    ensures "nodes.worker.type" == "nodes" + "." + "worker.type"
    ensures "worker.type" == "worker" + "." + "type"
    ensures '.' !in "nodes" && '.' !in "control" && '.' !in "worker" && '.' !in "type"
  {
  }

  /** The cluster file of the documented lookups. */
  const ExampleConfig: Value :=
    Dict([Entry("nodes", Dict([Entry("control", Dict([Entry("type", Str("cx21"))]))]))])

  /** A key that is present is found by descending one segment at a time. */
  lemma GetConfigFound()
    ensures GetConfig("nodes.control.type", Null, ExampleConfig) == Ok(Str("cx21"))
  {
    var leaf := Dict([Entry("type", Str("cx21"))]);
    ExampleKeys();
    LookupStep("nodes", "control.type", Null, Dict([Entry("control", leaf)]), []);
    LookupStep("control", "type", Null, leaf, []);
    LookupLeaf("type", Null, Str("cx21"), []);
  }

  /** A key whose segment is missing gives the default. */
  lemma GetConfigDefault()
    ensures GetConfig("nodes.worker.type", Str("cx11"), ExampleConfig) == Ok(Str("cx11"))
  {
    var leaf := Dict([Entry("type", Str("cx21"))]);
    ExampleKeys();
    LookupStep("nodes", "worker.type", Str("cx11"), Dict([Entry("control", leaf)]), []);
    LookupMissing("worker", "type", Str("cx11"), "control", leaf);
  }

  /** The keys `_get_group_config` builds for the documented calls. */
  lemma ExampleGroupKeys()
    ensures "nodes." + "control" + "." + "type" == "nodes.control.type"
    ensures "nodes." + "worker" + "." + "type" == "nodes.worker.type"
  {
  }

  /** A non-null first value passes the question on to the rest of the key. */
  lemma NullFreeStep(a: string, b: string, v: Value, rest: seq<Entry>)
    requires '.' !in a && !v.Null? && NullFreePath(b, v)
    ensures NullFreePath(a + "." + b, Dict([Entry(a, v)] + rest))
  {
    DottedKey(a, b);
  }

  /** A first segment the mapping lacks ends the path. */
  lemma NullFreeMissing(a: string, b: string, k: string, v: Value)
    requires '.' !in a && a != k
    ensures NullFreePath(a + "." + b, Dict([Entry(k, v)]))
  {
    DottedKey(a, b);
  }

  /** A dot-free key has no intermediate value to be null. */
  lemma NullFreeLeaf(k: string, c: Value)
    requires '.' !in k
    ensures NullFreePath(k, c)
  {
  }

  /** No null value lies on the path of the documented control lookup. */
  lemma ControlPathNullFree()
    ensures NullFreePath("nodes.control.type", ExampleConfig)
  {
    var leaf := Dict([Entry("type", Str("cx21"))]);
    var nodes := Dict([Entry("control", leaf)]);
    ExampleKeys();
    NullFreeLeaf("type", leaf);
    NullFreeStep("control", "type", leaf, []);
    assert [Entry("control", leaf)] + [] == [Entry("control", leaf)];
    NullFreeStep("nodes", "control.type", nodes, []);
    assert [Entry("nodes", nodes)] + [] == [Entry("nodes", nodes)];
  }

  /** No null value lies on the path of the documented worker lookup. */
  lemma WorkerPathNullFree()
    ensures NullFreePath("nodes.worker.type", ExampleConfig)
  {
    var leaf := Dict([Entry("type", Str("cx21"))]);
    var nodes := Dict([Entry("control", leaf)]);
    ExampleKeys();
    NullFreeMissing("worker", "type", "control", leaf);
    NullFreeStep("nodes", "worker.type", nodes, []);
    assert [Entry("nodes", nodes)] + [] == [Entry("nodes", nodes)];
  }

  /** The documented `_get_group_config` calls, under either reading. */
  lemma GroupConfigExample(reading: Reading)
    ensures GroupConfig(reading, ExampleConfig, "control", "type", Null) == Ok(Str("cx21"))
    ensures GroupConfig(reading, ExampleConfig, "worker", "type", Str("cx11")) == Ok(Str("cx11"))
  {
    ExampleGroupKeys();
    GetConfigFound();
    GetConfigDefault();
    if reading == AsWritten {
      ControlPathNullFree();
      WorkerPathNullFree();
      ReadingsAgree("nodes.control.type", Null, ExampleConfig, ExampleConfig);
      ReadingsAgree("nodes.worker.type", Str("cx11"), ExampleConfig, ExampleConfig);
    }
  }

  lemma CounterexampleKeys()
    ensures "nodes.web.num" == "nodes" + "." + "web.num"
    ensures "web.num" == "web" + "." + "num"
    ensures '.' !in "nodes" && '.' !in "web" && '.' !in "num"
  {
  }

  /** A group whose body is empty (`web:` with nothing under it) parses to
      null. Looking up `nodes.web.num` then reads the root's `num` instead of
      returning the default. */
  lemma NullSubtreeRestartsAtRoot()
    ensures var root := Dict([Entry("nodes", Dict([Entry("web", Null)])), Entry("num", Int(3))]);
            && GetConfigAsWritten("nodes.web.num", Null, root, root) == Ok(Int(3))
            && GetConfig("nodes.web.num", Null, root) == Ok(Null)
  {
    var root := Dict([Entry("nodes", Dict([Entry("web", Null)])), Entry("num", Int(3))]);
    CounterexampleKeys();
    DottedKey("nodes", "web.num");
    DottedKey("web", "num");
    assert Find(root.entries, "num") == Some(Int(3));
    assert GetConfigAsWritten("num", Null, Null, root) == Ok(Int(3));
    assert GetConfig("num", Null, Null) == Ok(Null);
  }
}
