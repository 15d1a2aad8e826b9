/** Strict dotted-path lookup (`parse_key` and `parse_key_recursive`): a key
    such as "a.b.c" is split on '.' and resolved one segment at a time; the
    first segment that yields nil or false raises, naming the dotted prefix
    consumed so far. */
module KeyPathAccessor {
  import opened Wrappers
  import opened Document
  import opened Errors
  import opened Text

  const KeySeparator: char := '.'

  /** `config_key.split('.')`. */
  function SplitKey(key: string): (segments: seq<string>)
    ensures segments <= Fields(key, KeySeparator)
    ensures |segments| > 0 ==> segments[|segments| - 1] != ""
    ensures forall i :: |segments| <= i < |Fields(key, KeySeparator)| ==> Fields(key, KeySeparator)[i] == ""
    ensures forall i :: 0 <= i < |segments| ==> KeySeparator !in segments[i]
  {
    Split(key, KeySeparator)
  }

  /** `parse_key_recursive`: resolves `keys` below `node`; `consumed` holds
      the segments already resolved above it, for the error message. A node
      that is not a mapping cannot answer a member name. */
  function Resolve(node: Value, keys: seq<string>, consumed: seq<string>): (r: Result<Value, Error>)
    ensures r.Failure? ==> r.error.NoDefinedValue? || r.error.NoSuchMethod?
    ensures |keys| == 0 ==> r == Success(node)
    decreases |keys|
  {
    if |keys| == 0 then Success(node)
    else
      var prefix := consumed + [keys[0]];
      if !node.Map? then Failure(NoSuchMethod(Join(prefix, KeySeparator)))
      else
        var v := Member(node.entries, keys[0]);
        if !Truthy(v) then Failure(NoDefinedValue(Join(prefix, KeySeparator)))
        else Resolve(v, keys[1..], prefix)
  }

  /** `parse_key`: a nil or empty key is refused before any lookup. */
  function ParseKey(root: Value, key: Option<string>): (r: Result<Value, Error>)
    ensures (key.None? || key == Some("")) <==> r == Failure(KeyRequired)
  {
    if key.None? || key.value == "" then Failure(KeyRequired)
    else Resolve(root, SplitKey(key.value), [])
  }

  /** The path names a node holding a value other than nil and false. */
  ghost predicate Defined(node: Value, path: seq<string>)
  {
    Get(node, path).Some? && Truthy(Get(node, path).value)
  }

  /** Every non-empty prefix of the path is defined. */
  ghost predicate AllDefined(node: Value, keys: seq<string>)
  {
    forall i :: 1 <= i <= |keys| ==> Defined(node, keys[..i])
  }

  /** The prefix of length `i` is the shortest one that is not defined. */
  ghost predicate FirstUndefined(node: Value, keys: seq<string>, i: int)
  {
    && 1 <= i <= |keys|
    && (forall j :: 1 <= j < i ==> Defined(node, keys[..j]))
    && !Defined(node, keys[..i])
  }

  /** The error raised at the first undefined prefix of length `i`: a missing
      or falsy member of a mapping, or a member asked of a non-mapping node. */
  function ErrorAt(node: Value, keys: seq<string>, consumed: seq<string>, i: int): Error
    requires 1 <= i <= |keys|
  {
    var message := Join(consumed + keys[..i], KeySeparator);
    var parent := Get(node, keys[..i - 1]);
    if parent.Some? && parent.value.Map? then NoDefinedValue(message) else NoSuchMethod(message)
  }

  /** Resolution succeeds exactly when every prefix is defined, and then
      returns the node at the full path; otherwise it fails at the first
      undefined prefix, naming it. */
  lemma {:induction false} ResolveSpec(node: Value, keys: seq<string>, consumed: seq<string>)
    ensures var r := Resolve(node, keys, consumed);
      && (r.Success? <==> AllDefined(node, keys))
      && (r.Success? ==> Get(node, keys) == Some(r.value))
      && (r.Failure? ==> exists i :: FirstUndefined(node, keys, i) && r.error == ErrorAt(node, keys, consumed, i))
    decreases |keys|
  {
    var r := Resolve(node, keys, consumed);
    if |keys| > 0 {
      var k := keys[0];
      var rest := keys[1..];
      var prefix := consumed + [k];
      assert keys[..1] == [k];
      assert [k][1..] == [];
      assert Get(node, keys[..1]) == if node.Map? && k in node.entries then Some(node.entries[k]) else None;
      if !node.Map? || !Truthy(Member(node.entries, k)) {
        assert !Defined(node, keys[..1]);
        assert FirstUndefined(node, keys, 1);
        assert keys[..0] == [];
        assert r.error == ErrorAt(node, keys, consumed, 1);
      } else {
        var v := node.entries[k];
        ResolveSpec(v, rest, prefix);
        // A prefix of length i + 1 of `keys` is the prefix of length i of `rest`, below `v`.
        forall i | 1 <= i <= |keys|
          ensures Get(node, keys[..i]) == Get(v, rest[..i - 1])
        {
          assert keys[..i][0] == k;
          assert keys[..i][1..] == rest[..i - 1];
        }
        if r.Success? {
          assert rest[..|rest|] == rest;
          assert keys[..|keys|] == keys;
          forall i | 1 <= i <= |keys|
            ensures Defined(node, keys[..i])
          {
            if i > 1 {
              assert Defined(v, rest[..i - 1]);
            }
          }
        } else {
          var i :| FirstUndefined(v, rest, i) && r.error == ErrorAt(v, rest, prefix, i);
          assert FirstUndefined(node, keys, i + 1) by {
            forall j | 1 <= j < i + 1
              ensures Defined(node, keys[..j])
            {
              if j > 1 {
                assert Defined(v, rest[..j - 1]);
              }
            }
          }
          assert consumed + keys[..i + 1] == prefix + rest[..i];
          assert Get(node, keys[..i]) == Get(v, rest[..i - 1]);
          assert r.error == ErrorAt(node, keys, consumed, i + 1);
          assert !AllDefined(node, keys);
        }
      }
    } else {
      assert keys == [];
    }
  }

  /** `parse_key` on a non-empty key: success exactly when every dotted
      prefix is defined, returning the node the full path names; otherwise
      the error names the first undefined dotted prefix, which is a prefix
      of the key as the caller wrote it. */
  lemma ParseKeySpec(root: Value, key: string)
    requires key != ""
    ensures var keys := SplitKey(key);
      var r := ParseKey(root, Some(key));
      && (r.Success? <==> AllDefined(root, keys))
      && (r.Success? ==> Get(root, keys) == Some(r.value))
      && (r.Failure? ==>
            exists i ::
              && FirstUndefined(root, keys, i)
              && r.error == ErrorAt(root, keys, [], i)
              && Join(keys[..i], KeySeparator) <= key)
  {
    var keys := SplitKey(key);
    ResolveSpec(root, keys, []);
    var r := ParseKey(root, Some(key));
    if r.Failure? {
      var i :| FirstUndefined(root, keys, i) && r.error == ErrorAt(root, keys, [], i);
      assert keys[..i] == Fields(key, KeySeparator)[..i];
      JoinPrefix(Fields(key, KeySeparator), i, KeySeparator);
      JoinFields(key, KeySeparator);
      assert [] + keys[..i] == keys[..i];
    }
  }

  /** The document `{a: {b: {c: 42}}}`. */
  function ExampleDocument(): Value
  {
    Map(map["a" := Map(map["b" := Map(map["c" := Int(42)])])])
  }

  /** One resolution step through a defined member of a mapping. */
  lemma ResolveThrough(node: Value, k: string, rest: seq<string>, consumed: seq<string>)
    requires node.Map? && k in node.entries && Truthy(node.entries[k])
    ensures Resolve(node, [k] + rest, consumed) == Resolve(node.entries[k], rest, consumed + [k])
  {
    assert ([k] + rest)[1..] == rest;
  }

  /** On `{a: {b: {c: 42}}}`, `parse_key('a.b.c')` gives 42. */
  lemma StrictFoundExample()
    ensures ParseKey(ExampleDocument(), Some("a.b.c")) == Success(Int(42))
  {
    var c := Map(map["c" := Int(42)]);
    var b := Map(map["b" := c]);
    var doc := ExampleDocument();
    SplitExamples();
    ResolveThrough(c, "c", [], ["a", "b"]);
    ResolveThrough(b, "b", ["c"], ["a"]);
    ResolveThrough(doc, "a", ["b", "c"], []);
  }

  /** A missing or falsy member of a mapping fails, naming the prefix. */
  lemma ResolveMissing(node: Value, k: string, rest: seq<string>, consumed: seq<string>)
    requires node.Map? && !Truthy(Member(node.entries, k))
    ensures Resolve(node, [k] + rest, consumed) == Failure(NoDefinedValue(Join(consumed + [k], KeySeparator)))
  {
  }

  /** On the same document `parse_key('a.x')` fails naming "a.x". */
  lemma StrictMissingExample()
    ensures ParseKey(ExampleDocument(), Some("a.x")) == Failure(NoDefinedValue("a.x"))
  {
    var doc := ExampleDocument();
    SplitExamples();
    ResolveThrough(doc, "a", ["x"], []);
    ResolveMissing(doc.entries["a"], "x", [], ["a"]);
    JoinPairExample();
  }

  lemma JoinPairExample()
    ensures Join(["a"] + ["x"], KeySeparator) == "a.x"
  {
    assert (["a"] + ["x"])[1..] == ["x"];
  }

  /** How the two example keys split. */
  lemma SplitExamples()
    ensures SplitKey("a.b.c") == ["a", "b", "c"]
    ensures SplitKey("a.x") == ["a", "x"]
  {
    SplitThree();
    SplitTwo();
  }

  lemma SplitThree()
    ensures Fields("a.b.c", KeySeparator) == ["a", "b", "c"]
  {
    var abc := ['a', '.', 'b', '.', 'c'];
    assert IndexOf(abc, '.') == 1;
    assert IndexOf(abc[2..], '.') == 1;
    assert abc[2..][2..] == ['c'];
    assert Fields("c", '.') == ["c"];
    assert abc[2..][..1] == "b";
    assert Fields(abc[2..], '.') == ["b"] + Fields("c", '.');
    assert abc[..1] == "a";
    assert Fields(abc, '.') == ["a"] + Fields(abc[2..], '.');
  }

  lemma SplitTwo()
    ensures Fields("a.x", KeySeparator) == ["a", "x"]
  {
    var ax := ['a', '.', 'x'];
    assert IndexOf(ax, '.') == 1;
    assert Fields("x", '.') == ["x"];
    assert ax[..1] == "a" && ax[2..] == "x";
    assert Fields(ax, '.') == ["a"] + Fields("x", '.');
  }
}
