/** The configuration store (`CleanConfig::Configuration`): the merged
    document (`@data_hash`) and the wrapped view built from it
    (`@data_model`), with the `merge!`, `reset!`, `empty?`, `add!`, `load!`
    and `parse_key` operations. The process-wide singleton becomes an
    explicit immutable value; every mutator returns the next store. */
module ConfigStore {
  import opened Wrappers
  import opened Document
  import opened Errors
  import StructuralMerger
  import KeyPathAccessor
  import PathResolver
  import Text
  import DynamicView

  /** `data` is `@data_hash` (Null for nil); `view` is `@data_model`, the
      wrapped document, None for nil. */
  datatype Store = Store(data: Value, view: Option<Value>)

  /** The singleton before anything is loaded. */
  const Fresh: Store := Store(Null, None)

  /** `RecursiveOpenStruct.new(data)`: a nil or false document wraps as an
      empty mapping (the struct starts from `data || {}`); any other document
      keeps its structure. */
  function Wrap(data: Value): (v: Value)
    ensures !Truthy(data) ==> v == Map(map[])
    ensures Truthy(data) ==> v == data
  {
    if !Truthy(data) then Map(map[]) else data
  }

  /** The view is absent only while no document is held, and otherwise is
      the wrapping of the held document. */
  ghost predicate Consistent(s: Store)
  {
    && (s.view.None? ==> s.data.Null?)
    && (s.view.Some? ==> s.view.value == Wrap(s.data))
  }

  /** `empty?`: whether the view is absent. */
  predicate IsEmpty(s: Store)
  {
    s.view.None?
  }

  /** `reset!`: drops the document and the view. */
  function Reset(s: Store): (r: Store)
    ensures IsEmpty(r) && r.data.Null?
    ensures Consistent(r)
  {
    Store(Null, None)
  }

  /** `merge!(config)`: with no document held, the incoming one is adopted
      as is; otherwise both must be mappings and are deep-merged (Ruby raises
      otherwise, before anything is assigned). The view is rebuilt from the
      result. */
  function Merge(s: Store, config: Value): (r: Result<Store, Error>)
    ensures s.data.Null? ==> r.Success? && r.value.data == config
    ensures r.Failure? <==> !s.data.Null? && !(s.data.Map? && config.Map?)
    ensures r.Failure? ==> r.error == NotMergeable
    ensures r.Success? ==> !IsEmpty(r.value) && Consistent(r.value)
    ensures r.Success? && !s.data.Null? ==>
      && r.value.data.Map?
      && r.value.data.entries.Keys == s.data.entries.Keys + config.entries.Keys
      && r.value.data == StructuralMerger.DeepMerge(s.data, config)
  {
    if s.data.Null? then
      Success(Store(config, Some(Wrap(config))))
    else if s.data.Map? && config.Map? then
      var merged := StructuralMerger.DeepMerge(s.data, config);
      Success(Store(merged, Some(Wrap(merged))))
    else
      Failure(NotMergeable)
  }

  /** Merging the same mapping again leaves the store as the first merge
      left it. */
  lemma MergeTwiceSameAsOnce(s: Store, config: Value)
    requires config.Map?
    requires Merge(s, config).Success?
    ensures Merge(Merge(s, config).value, config) == Merge(s, config)
  {
    var once := Merge(s, config).value;
    if s.data.Null? {
      StructuralMerger.MergeSelf(config);
    } else {
      StructuralMerger.MergeIdempotent(s.data, config);
    }
  }

  /** After any successful `merge!`, every scalar or sequence the incoming
      document holds is found at its path in the store. */
  lemma MergeIncomingLeafWins(s: Store, config: Value, path: seq<string>)
    requires Merge(s, config).Success?
    requires Get(config, path).Some? && !Get(config, path).value.Map?
    ensures Get(Merge(s, config).value.data, path) == Get(config, path)
  {
    if !s.data.Null? {
      StructuralMerger.IncomingLeafWins(s.data, config, path);
    }
  }

  /** On a loaded store, a stored scalar or sequence survives `merge!` when
      the incoming document has nothing at its path and only mappings on the
      way there. */
  lemma MergeStoredLeafKept(s: Store, config: Value, path: seq<string>)
    requires Merge(s, config).Success? && !s.data.Null?
    requires Get(s.data, path).Some? && !Get(s.data, path).value.Map?
    requires Get(config, path).None?
    requires forall i :: 0 <= i < |path| ==>
      Get(config, path[..i]).None? || Get(config, path[..i]).value.Map?
    ensures Get(Merge(s, config).value.data, path) == Get(s.data, path)
  {
    StructuralMerger.BaseLeafKept(s.data, config, path);
  }

  /** Which node strict lookup starts from: the view, or nil without one. */
  function Root(s: Store): Value
  {
    if s.view.Some? then s.view.value else Null
  }

  /** `parse_key(config_key)` on the store. */
  function Lookup(s: Store, key: Option<string>): Result<Value, Error>
  {
    KeyPathAccessor.ParseKey(Root(s), key)
  }

  /** Lenient member access on the store (`config.name`, forwarded to the
      view): the member, or nil when it is missing; only a store without a
      mapping view cannot answer. */
  function Attribute(s: Store, name: string): (r: Result<Value, Error>)
    ensures r.Failure? <==> !Root(s).Map?
    ensures r.Success? && name !in Root(s).entries ==> r.value.Null?
    ensures r.Success? && name in Root(s).entries ==> r.value == Root(s).entries[name]
  {
    if Root(s).Map? then Success(Member(Root(s).entries, name))
    else Failure(NoSuchMethod(name))
  }

  /** A failed strict lookup of a non-empty key names a dotted prefix of that
      key, and an undefined value is reported with the text
      `config_key <prefix> has no defined value`. */
  lemma StrictFailureNamesPrefix(s: Store, key: string)
    requires key != ""
    ensures var r := Lookup(s, Some(key));
      r.Failure? ==> (r.error.NoDefinedValue? || r.error.NoSuchMethod?) && r.error.key <= key
    ensures var r := Lookup(s, Some(key));
      r.Failure? && r.error.NoDefinedValue? ==>
        Message(r.error) == "config_key " + r.error.key + " has no defined value"
  {
    var r := Lookup(s, Some(key));
    KeyPathAccessor.ParseKeySpec(Root(s), key);
    if r.Failure? {
      var keys := KeyPathAccessor.SplitKey(key);
      var i :| KeyPathAccessor.FirstUndefined(Root(s), keys, i)
        && r.error == KeyPathAccessor.ErrorAt(Root(s), keys, [], i)
        && Text.Join(keys[..i], KeyPathAccessor.KeySeparator) <= key;
      assert [] + keys[..i] == keys[..i];
    }
  }

  /** `fetch` with its nil default on the store's view answers as lenient
      member access does. */
  lemma FetchOnView(s: Store, name: string)
    requires Root(s).Map?
    ensures DynamicView.Fetch(Root(s).entries, name, Null) == Attribute(s, name).value
  {
    DynamicView.FetchWithoutDefaultIsMember(Root(s).entries, name);
  }

  /** `keys` on the store's view: exactly the top-level names of the held
      document, each once. */
  method ViewKeys(s: Store) returns (names: seq<string>)
    requires Root(s).Map?
    ensures forall k :: k in names <==> k in Root(s).entries
    ensures |names| == |Root(s).entries|
  {
    names := DynamicView.Keys(Root(s).entries);
  }

  /** After `reset!`, strict lookup fails for every key that names at least
      one segment; a key made only of dots names none and returns nil. */
  lemma LookupAfterReset(s: Store, key: string)
    requires key != ""
    ensures Lookup(Reset(s), Some(key)).Failure? <==> |KeyPathAccessor.SplitKey(key)| > 0
    ensures |KeyPathAccessor.SplitKey(key)| == 0 ==> Lookup(Reset(s), Some(key)) == Success(Null)
  {
  }

  /** A member name without dots: lenient access never fails on a loaded
      mapping, while strict lookup of the same name fails exactly when the
      member is missing, nil or false, naming it. */
  lemma StrictVersusLenient(s: Store, name: string)
    requires Root(s).Map?
    requires name != "" && '.' !in name
    ensures Attribute(s, name).Success?
    ensures Lookup(s, Some(name)).Failure? <==> !Truthy(Attribute(s, name).value)
    ensures Lookup(s, Some(name)).Failure? ==> Lookup(s, Some(name)).error == NoDefinedValue(name)
    ensures Lookup(s, Some(name)).Success? ==> Lookup(s, Some(name)).value == Attribute(s, name).value
  {
    assert Text.Fields(name, '.') == [name];
    assert KeyPathAccessor.SplitKey(name) == [name];
    assert [name][1..] == [];
    var v := Member(Root(s).entries, name);
    if Truthy(v) {
      assert KeyPathAccessor.Resolve(v, [], [name]) == Success(v);
      assert KeyPathAccessor.Resolve(Root(s), [name], []) == Success(v);
    }
  }

  /** The file `add!` reads: the explicit path, or else the one resolved from
      the caller's own source file. */
  function ConfigPathFor(configPath: Option<string>, caller: SourceFile, fileExists: string -> bool): (p: string)
    ensures configPath.Some? ==> p == configPath.value
    ensures configPath.None? ==>
      p == PathResolver.ResolveConfigPath(caller.segments, caller.hasExtension, fileExists)
  {
    if configPath.Some? then configPath.value
    else PathResolver.ResolveConfigPath(caller.segments, caller.hasExtension, fileExists)
  }

  /** The caller's source file, split into path segments. */
  datatype SourceFile = SourceFile(segments: seq<string>, hasExtension: bool)

  /** `add!(config_path)`: a missing file raises before the file is parsed,
      a document that parses to nil or false raises before anything is
      merged, and otherwise the document is merged. `loadYaml` stands for the
      parser. A failure returns no store, so the caller's store is unchanged. */
  function Add(s: Store, configPath: Option<string>, caller: SourceFile,
               fileExists: string -> bool, loadYaml: string -> Value): (r: Result<Store, Error>)
    ensures var path := ConfigPathFor(configPath, caller, fileExists);
      && (r == Failure(FileNotFound(path)) <==> !fileExists(path))
      && (r == Failure(InvalidConfig(path)) <==> fileExists(path) && !Truthy(loadYaml(path)))
      && (fileExists(path) && Truthy(loadYaml(path)) ==> r == Merge(s, loadYaml(path)))
      && (r.Success? ==> fileExists(path) && Truthy(loadYaml(path)) && !IsEmpty(r.value))
      && (r.Success? ==> Consistent(r.value))
      && (r.Success? && s.data.Null? ==> r.value.data == loadYaml(path))
      && (r.Success? && !s.data.Null? ==>
            r.value.data == StructuralMerger.DeepMerge(s.data, loadYaml(path)))
  {
    var path := ConfigPathFor(configPath, caller, fileExists);
    if !fileExists(path) then Failure(FileNotFound(path))
    else
      var document := loadYaml(path);
      if !Truthy(document) then Failure(InvalidConfig(path))
      else Merge(s, document)
  }

  /** `load!`: `add!` with the path `config/config.yml` relative to the
      working directory. */
  function Load(s: Store, fileExists: string -> bool, loadYaml: string -> Value): (r: Result<Store, Error>)
    ensures !fileExists("config/config.yml") ==> r == Failure(FileNotFound("config/config.yml"))
    ensures r.Success? ==> !IsEmpty(r.value) && fileExists("config/config.yml")
  {
    Add(s, Some(PathResolver.ConfigLocation()), SourceFile([], false), fileExists, loadYaml)
  }

  /** The inner merge of the two-merge example below: `{x: 1, y: 2}` and
      `{y: 3, z: 4}` give `{x: 1, y: 3, z: 4}`. */
  lemma InnerMergeExample()
    ensures StructuralMerger.DeepMerge(Map(map["x" := Int(1), "y" := Int(2)]), Map(map["y" := Int(3), "z" := Int(4)]))
         == Map(map["x" := Int(1), "y" := Int(3), "z" := Int(4)])
  {
    var base := Map(map["x" := Int(1), "y" := Int(2)]);
    var incoming := Map(map["y" := Int(3), "z" := Int(4)]);
    var inner := StructuralMerger.DeepMerge(base, incoming);
    assert inner.entries.Keys == {"x", "y", "z"};
    StructuralMerger.SharedKey(base, incoming, "y");
    assert inner.entries == map["x" := Int(1), "y" := Int(3), "z" := Int(4)];
  }

  /** Two merges: `{a: {x: 1, y: 2}}` then `{a: {y: 3, z: 4}}` hold
      `{a: {x: 1, y: 3, z: 4}}`. */
  lemma MergeExample()
    ensures var first := Map(map["a" := Map(map["x" := Int(1), "y" := Int(2)])]);
      var second := Map(map["a" := Map(map["y" := Int(3), "z" := Int(4)])]);
      var s1 := Merge(Fresh, first);
      && s1.Success?
      && Merge(s1.value, second).Success?
      && Merge(s1.value, second).value.data
         == Map(map["a" := Map(map["x" := Int(1), "y" := Int(3), "z" := Int(4)])])
  {
    var first := Map(map["a" := Map(map["x" := Int(1), "y" := Int(2)])]);
    var second := Map(map["a" := Map(map["y" := Int(3), "z" := Int(4)])]);
    InnerMergeExample();
    var merged := StructuralMerger.DeepMerge(first, second);
    StructuralMerger.SharedKey(first, second, "a");
    assert merged.entries.Keys == {"a"};
    assert merged.entries == map["a" := Map(map["x" := Int(1), "y" := Int(3), "z" := Int(4)])];
  }

  /** A sequence under a shared key is replaced whole, not concatenated. */
  lemma SequenceReplacedExample()
    ensures var first := Map(map["list" := Seq([Int(1), Int(2)])]);
      var second := Map(map["list" := Seq([Int(3)])]);
      var s1 := Merge(Fresh, first);
      && s1.Success?
      && Merge(s1.value, second).Success?
      && Merge(s1.value, second).value.data == second
  {
    var first := Map(map["list" := Seq([Int(1), Int(2)])]);
    var second := Map(map["list" := Seq([Int(3)])]);
    StructuralMerger.SharedKey(first, second, "list");
    assert StructuralMerger.DeepMerge(first, second).entries.Keys == {"list"};
    assert StructuralMerger.DeepMerge(first, second).entries == second.entries;
  }

  /** On `{a: {b: {c: 42}}}` lenient access to `x` below `a` gives nil
      where strict lookup of `a.x` fails (see the key-path examples). */
  lemma LenientMissingExample()
    ensures var s := Merge(Fresh, KeyPathAccessor.ExampleDocument()).value;
      && Attribute(s, "a").Success?
      && Member(Attribute(s, "a").value.entries, "x") == Null
      && Lookup(s, Some("a.x")) == Failure(NoDefinedValue("a.x"))
  {
    KeyPathAccessor.StrictMissingExample();
  }
}
