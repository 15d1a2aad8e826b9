/** String helpers shared by path resolution and dotted-key lookup:
    `Array#join` with a one-character separator, and `String#split` on one
    character, including Ruby's removal of trailing empty fields. */
module Text {

  /** `parts.join(sep)`: the parts with one separator between neighbours. */
  function Join(parts: seq<string>, sep: char): string
  {
    if |parts| == 0 then ""
    else if |parts| == 1 then parts[0]
    else parts[0] + [sep] + Join(parts[1..], sep)
  }

  /** Appending one more part adds exactly one separator and that part. */
  lemma {:induction false} JoinAppend(parts: seq<string>, part: string, sep: char)
    requires |parts| > 0
    ensures Join(parts + [part], sep) == Join(parts, sep) + [sep] + part
    decreases |parts|
  {
    if |parts| > 1 {
      assert (parts + [part])[1..] == parts[1..] + [part];
      JoinAppend(parts[1..], part, sep);
    } else {
      assert parts + [part] == [parts[0], part];
      assert [parts[0], part][1..] == [part];
    }
  }

  /** Position of the first occurrence of `c` in `s`. */
  function IndexOf(s: string, c: char): (i: nat)
    requires c in s
    ensures i < |s| && s[i] == c
    ensures c !in s[..i]
  {
    if s[0] == c then 0
    else
      assert c in s[1..] by {
        var j :| 0 <= j < |s| && s[j] == c;
        assert s[1..][j - 1] == c;
      }
      var k := IndexOf(s[1..], c);
      assert s[..k + 1] == [s[0]] + s[1..][..k];
      k + 1
  }

  /** Every field between separators, empty ones included (a split with no
      limit that keeps trailing empties). */
  function Fields(s: string, sep: char): (r: seq<string>)
    ensures |r| > 0
    ensures forall i :: 0 <= i < |r| ==> sep !in r[i]
    decreases |s|
  {
    if sep !in s then [s]
    else
      var i := IndexOf(s, sep);
      [s[..i]] + Fields(s[i + 1..], sep)
  }

  /** Splitting and re-joining with the same separator gives the string back. */
  lemma {:induction false} JoinFields(s: string, sep: char)
    ensures Join(Fields(s, sep), sep) == s
    decreases |s|
  {
    if sep in s {
      var i := IndexOf(s, sep);
      var rest := Fields(s[i + 1..], sep);
      JoinFields(s[i + 1..], sep);
      assert Fields(s, sep) == [s[..i]] + rest;
      assert ([s[..i]] + rest)[1..] == rest;
      assert s == s[..i] + [sep] + s[i + 1..];
    }
  }

  /** Joining the first `i` parts gives a prefix of joining them all. */
  lemma {:induction false} JoinPrefix(parts: seq<string>, i: nat, sep: char)
    requires i <= |parts|
    ensures Join(parts[..i], sep) <= Join(parts, sep)
    decreases |parts|
  {
    if i == |parts| {
      assert parts[..i] == parts;
    } else if i == 1 {
      assert parts[..1] == [parts[0]];
    } else if i > 1 {
      var rest := parts[1..];
      JoinPrefix(rest, i - 1, sep);
      assert parts[..i][1..] == rest[..i - 1];
      var head := parts[0] + [sep];
      assert Join(parts[..i], sep) == head + Join(rest[..i - 1], sep);
      assert Join(parts, sep) == head + Join(rest, sep);
    }
  }

  /** Drops the empty fields at the end, as `String#split` does. */
  function DropTrailingEmpty(fields: seq<string>): (r: seq<string>)
    ensures r <= fields
    ensures |r| > 0 ==> r[|r| - 1] != ""
    ensures forall i :: |r| <= i < |fields| ==> fields[i] == ""
  {
    if |fields| == 0 || fields[|fields| - 1] != "" then fields
    else DropTrailingEmpty(fields[..|fields| - 1])
  }

  /** Ruby's `s.split(sep)` for a one-character separator. */
  function Split(s: string, sep: char): (r: seq<string>)
    ensures forall i :: 0 <= i < |r| ==> sep !in r[i]
    ensures r <= Fields(s, sep)
    ensures |r| > 0 ==> r[|r| - 1] != ""
    ensures forall i :: |r| <= i < |Fields(s, sep)| ==> Fields(s, sep)[i] == ""
  {
    DropTrailingEmpty(Fields(s, sep))
  }

  /** Dropping trailing empty fields removes only separators from the end
      of the joined text. */
  lemma {:induction false} DropTrailingEmptyJoin(fields: seq<string>, sep: char)
    ensures var kept := Join(DropTrailingEmpty(fields), sep);
      var all := Join(fields, sep);
      && kept <= all
      && forall i :: |kept| <= i < |all| ==> all[i] == sep
    decreases |fields|
  {
    if |fields| > 0 && fields[|fields| - 1] == "" {
      var shorter := fields[..|fields| - 1];
      DropTrailingEmptyJoin(shorter, sep);
      if |shorter| > 0 {
        assert fields == shorter + [""];
        JoinAppend(shorter, "", sep);
      } else {
        assert fields == [""];
      }
    }
  }

  /** Re-joining what `split` returns gives the string back up to a run of
      trailing separators, which `split` discards. */
  lemma SplitRejoin(s: string, sep: char)
    ensures var joined := Join(Split(s, sep), sep);
      && joined <= s
      && forall i :: |joined| <= i < |s| ==> s[i] == sep
  {
    DropTrailingEmptyJoin(Fields(s, sep), sep);
    JoinFields(s, sep);
  }

  /** Removes trailing copies of `c`. */
  function TrimEnd(s: string, c: char): (r: string)
    ensures r <= s
    ensures |r| > 0 ==> r[|r| - 1] != c
    ensures forall i :: |r| <= i < |s| ==> s[i] == c
    ensures (forall i :: 0 <= i < |s| ==> s[i] == c) ==> r == ""
  {
    if |s| == 0 || s[|s| - 1] != c then s
    else TrimEnd(s[..|s| - 1], c)
  }
}
