/** The structural merge `merge!` performs on a loaded store (ActiveSupport's
    `Hash#deep_merge`): nested mappings merge key by key, and every other
    incoming value replaces the stored one wholesale. */
module StructuralMerger {
  import opened Wrappers
  import opened Document

  /** Merges `incoming` into `base`. When both are mappings the result holds
      every key of either; a key of both merges recursively; otherwise the
      incoming value wins, sequences and scalars included. */
  function DeepMerge(base: Value, incoming: Value): (r: Value)
    ensures !(base.Map? && incoming.Map?) ==> r == incoming
    ensures base.Map? && incoming.Map? ==>
      && r.Map?
      && r.entries.Keys == base.entries.Keys + incoming.entries.Keys
      && (forall k :: k in base.entries && k !in incoming.entries ==> r.entries[k] == base.entries[k])
      && (forall k :: k in incoming.entries && k !in base.entries ==> r.entries[k] == incoming.entries[k])
    decreases incoming
  {
    if base.Map? && incoming.Map? then
      Map(map k | k in base.entries.Keys + incoming.entries.Keys ::
            if k in incoming.entries then
              if k in base.entries then DeepMerge(base.entries[k], incoming.entries[k])
              else incoming.entries[k]
            else base.entries[k])
    else incoming
  }

  /** The entry a merge produces under a key both sides hold. */
  lemma SharedKey(base: Value, incoming: Value, k: string)
    requires base.Map? && incoming.Map?
    requires k in base.entries && k in incoming.entries
    ensures DeepMerge(base, incoming).entries[k] == DeepMerge(base.entries[k], incoming.entries[k])
  {
  }

  /** Merging a value into itself changes nothing. */
  lemma {:induction false} MergeSelf(v: Value)
    ensures DeepMerge(v, v) == v
    decreases v
  {
    if v.Map? {
      var r := DeepMerge(v, v);
      forall k | k in v.entries
        ensures r.entries[k] == v.entries[k]
      {
        SharedKey(v, v, k);
        MergeSelf(v.entries[k]);
      }
      assert r.entries == v.entries;
    }
  }

  /** Merging the same document a second time leaves what the first merge
      produced. */
  lemma {:induction false} MergeIdempotent(base: Value, incoming: Value)
    ensures DeepMerge(DeepMerge(base, incoming), incoming) == DeepMerge(base, incoming)
    decreases incoming
  {
    var once := DeepMerge(base, incoming);
    if once.Map? && incoming.Map? {
      var twice := DeepMerge(once, incoming);
      forall k | k in once.entries
        ensures twice.entries[k] == once.entries[k]
      {
        if k in incoming.entries {
          SharedKey(once, incoming, k);
          if base.Map? && k in base.entries {
            SharedKey(base, incoming, k);
            MergeIdempotent(base.entries[k], incoming.entries[k]);
          } else {
            MergeSelf(incoming.entries[k]);
          }
        }
      }
      assert twice.entries == once.entries;
    } else if incoming.Map? {
      // `once` is not a mapping, so `base` was not one either and `once` is `incoming`.
      assert false;
    }
  }

  /** Merging an empty mapping into a mapping changes nothing. */
  lemma MergeEmptyIncoming(base: Value)
    requires base.Map?
    ensures DeepMerge(base, Map(map[])) == base
  {
    assert DeepMerge(base, Map(map[])).entries == base.entries;
  }

  /** Every non-mapping value the incoming document holds at some path is
      found at that path in the result. */
  lemma {:induction false} IncomingLeafWins(base: Value, incoming: Value, path: seq<string>)
    requires Get(incoming, path).Some? && !Get(incoming, path).value.Map?
    ensures Get(DeepMerge(base, incoming), path) == Get(incoming, path)
    decreases |path|
  {
    if |path| > 0 && base.Map? {
      var k := path[0];
      if k in base.entries {
        SharedKey(base, incoming, k);
        IncomingLeafWins(base.entries[k], incoming.entries[k], path[1..]);
      }
    }
  }

  /** A non-mapping value of the base survives at its path when the incoming
      document puts nothing there and only mappings (or nothing) on the way. */
  lemma {:induction false} BaseLeafKept(base: Value, incoming: Value, path: seq<string>)
    requires Get(base, path).Some? && !Get(base, path).value.Map?
    requires Get(incoming, path).None?
    requires forall i :: 0 <= i < |path| ==>
      Get(incoming, path[..i]).None? || Get(incoming, path[..i]).value.Map?
    ensures Get(DeepMerge(base, incoming), path) == Get(base, path)
    decreases |path|
  {
    assert path[..0] == [];
    var k := path[0];
    var rest := path[1..];
    if k in incoming.entries {
      SharedKey(base, incoming, k);
      forall i | 0 <= i < |rest|
        ensures Get(incoming.entries[k], rest[..i]).None? || Get(incoming.entries[k], rest[..i]).value.Map?
      {
        assert path[..i + 1][1..] == rest[..i];
      }
      BaseLeafKept(base.entries[k], incoming.entries[k], rest);
    }
  }

  /** Every non-mapping value of the result comes from the incoming document
      or, failing that, from the base, at the same path. */
  lemma {:induction false} MergedLeafOrigin(base: Value, incoming: Value, path: seq<string>)
    requires Get(DeepMerge(base, incoming), path).Some?
    requires !Get(DeepMerge(base, incoming), path).value.Map?
    ensures Get(DeepMerge(base, incoming), path) == Get(incoming, path)
         || Get(DeepMerge(base, incoming), path) == Get(base, path)
    decreases |path|
  {
    if |path| > 0 && base.Map? && incoming.Map? {
      var k := path[0];
      if k in base.entries && k in incoming.entries {
        SharedKey(base, incoming, k);
        MergedLeafOrigin(base.entries[k], incoming.entries[k], path[1..]);
      }
    }
  }
}
