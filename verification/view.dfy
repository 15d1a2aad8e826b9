/** The hash-like methods added to the wrapped view (`RecursiveOpenStruct`):
    `keys` and `fetch(key, default)`. Both read a copy of the wrapped mapping
    (`to_h`); as pure functions here they cannot change it. */
module DynamicView {
  import opened Document

  /** `keys`: every member name of the wrapped mapping, each exactly once.
      The order is not modelled: callers must not rely on it. */
  method Keys(table: map<string, Value>) returns (names: seq<string>)
    ensures forall k :: k in names <==> k in table
    ensures forall i, j :: 0 <= i < j < |names| ==> names[i] != names[j]
    ensures |names| == |table|
  {
    names := [];
    var remaining := table.Keys;
    while remaining != {}
      invariant remaining <= table.Keys
      invariant forall k :: k in names <==> k in table && k !in remaining
      invariant forall i, j :: 0 <= i < j < |names| ==> names[i] != names[j]
      invariant |names| + |remaining| == |table|
      decreases |remaining|
    {
      var k :| k in remaining;
      names := names + [k];
      remaining := remaining - {k};
    }
  }

  /** `fetch(key, default)`: the stored value when the key is present (even
      when that value is nil or false), the default otherwise. Ruby's default
      argument is nil. */
  function Fetch(table: map<string, Value>, key: string, default: Value): (r: Value)
    ensures key in table ==> r == table[key]
    ensures key !in table ==> r == default
  {
    if key in table then table[key] else default
  }

  /** For a present key the default is never looked at. */
  lemma FetchIgnoresDefault(table: map<string, Value>, key: string, d1: Value, d2: Value)
    requires key in table
    ensures Fetch(table, key, d1) == Fetch(table, key, d2)
  {
  }

  /** `fetch` with the nil default answers exactly as lenient member access. */
  lemma FetchWithoutDefaultIsMember(table: map<string, Value>, key: string)
    ensures Fetch(table, key, Null) == Member(table, key)
  {
  }
}
