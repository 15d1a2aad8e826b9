/** Project-root discovery (`find_execution_path`) and the default
    configuration path derived from it (`resolve_config_path`).

    A path arrives already split on the separator, deepest segment last, as
    `path.split('/')` produces it. Whether the path has a file extension and
    whether a file exists are parameters: the model does no I/O. */
module PathResolver {
  import opened Text

  const Separator: char := '/'

  /** Base name of the configuration directory; the file name derives from it. */
  const ConfigDirectory: string := "config"
  const ConfigFileName: string := ConfigDirectory + ".yml"

  /** Directories commonly found at a project root. */
  const CodeDirectories: seq<string> := ["lib", "spec", "bin"]

  /** The dependency-manifest marker file that identifies a project root. */
  const Marker: string := "Gemfile"

  predicate IsCodeDirectory(name: string)
  {
    name in CodeDirectories
  }

  function DropLast(s: seq<string>): seq<string>
    requires |s| > 0
  {
    s[..|s| - 1]
  }

  /** `Array#pop` when its result is ignored: a no-op on an empty array. */
  function Pop(s: seq<string>): (r: seq<string>)
    ensures r <= s
    ensures |s| > 0 ==> |r| == |s| - 1
  {
    if |s| == 0 then s else DropLast(s)
  }

  /** `File.join(dir, name)` for a name that does not start with a
      separator (it may contain some, as `config/config.yml` does): one
      separator between them, none added when `dir` already ends with one
      (so an empty `dir` gives an absolute name). */
  function FileJoin(dir: string, name: string): (r: string)
    ensures |r| == |dir| + |name| || |r| == |dir| + |name| + 1
    ensures r[..|dir|] == dir
    ensures r[|r| - |name|..] == name
    ensures |r| == |dir| + |name| <==> |dir| > 0 && dir[|dir| - 1] == Separator
    ensures |r| > |dir| + |name| ==> r[|dir|] == Separator
  {
    if |dir| > 0 && dir[|dir| - 1] == Separator then dir + name
    else dir + [Separator] + name
  }

  /** Where the marker file is looked for, beside the segments `parent`. */
  function MarkerLocation(parent: seq<string>): string
  {
    FileJoin(Join(parent, Separator), Marker)
  }

  /** `File.dirname` of the marker location: the joined segments without
      trailing separators, or the root `/` when that leaves nothing. */
  function ProjectDirectory(parent: seq<string>): (r: string)
    ensures r != ""
    ensures r == "/" || r <= Join(parent, Separator)
    ensures var joined := Join(parent, Separator);
      |joined| > 0 && joined[|joined| - 1] != Separator ==> r == joined
    ensures var joined := Join(parent, Separator);
      (forall i :: 0 <= i < |joined| ==> joined[i] == Separator) ==> r == "/"
  {
    var d := TrimEnd(Join(parent, Separator), Separator);
    if d == "" then "/" else d
  }

  /** One turn of the `until` loop. When the last segment is a code directory
      and no root is known yet, it is popped, its parent is tested for the
      marker, and a second pop then removes the parent without testing it as
      a code directory. Otherwise one segment is popped. */
  function Step(dirs: seq<string>, found: string, fileExists: string -> bool): (r: (seq<string>, string))
    requires |dirs| > 0
    ensures r.0 < dirs
    ensures IsCodeDirectory(dirs[|dirs| - 1]) && found == "" ==> r.0 == Pop(DropLast(dirs))
    ensures !(IsCodeDirectory(dirs[|dirs| - 1]) && found == "") ==> r.0 == DropLast(dirs) && r.1 == found
    ensures found != "" ==> r.1 == found
    ensures r.1 != found ==>
      && IsCodeDirectory(dirs[|dirs| - 1])
      && fileExists(MarkerLocation(DropLast(dirs)))
      && r.1 == ProjectDirectory(DropLast(dirs))
  {
    if IsCodeDirectory(dirs[|dirs| - 1]) && found == "" then
      var parent := DropLast(dirs);
      var found' := if fileExists(MarkerLocation(parent)) then ProjectDirectory(parent) else found;
      (Pop(parent), found')
    else
      (DropLast(dirs), found)
  }

  /** The loop from a given state to the end: pops until nothing is left. */
  function Walk(dirs: seq<string>, found: string, fileExists: string -> bool): string
    decreases |dirs|
  {
    if |dirs| == 0 then found
    else
      var next := Step(dirs, found, fileExists);
      Walk(next.0, next.1, fileExists)
  }

  /** Once a root is known the rest of the walk cannot replace it. */
  lemma {:induction false} WalkKeepsFound(dirs: seq<string>, found: string, fileExists: string -> bool)
    requires found != ""
    ensures Walk(dirs, found, fileExists) == found
    decreases |dirs|
  {
    if |dirs| > 0 {
      WalkKeepsFound(Step(dirs, found, fileExists).0, found, fileExists);
    }
  }

  /** The directory the walk starts from: a path with an extension names a
      file and is reduced to its directory, any other path is used as is. */
  function StartDirectory(segments: seq<string>, hasExtension: bool): (r: seq<string>)
    ensures hasExtension && |segments| > 0 ==> r == DropLast(segments)
    ensures !hasExtension ==> r == segments
  {
    if hasExtension && |segments| > 0 then DropLast(segments) else segments
  }

  /** `find_execution_path`: the project root, or "" when none is found. */
  function FindExecutionPath(segments: seq<string>, hasExtension: bool, fileExists: string -> bool): string
  {
    Walk(StartDirectory(segments, hasExtension), "", fileExists)
  }

  /** The same loop written as the source writes it, popping from the end of
      a working copy until it is empty. */
  method FindExecutionPathLoop(segments: seq<string>, hasExtension: bool, fileExists: string -> bool)
    returns (projectDirectory: string)
    ensures projectDirectory == FirstMatch(StartDirectory(segments, hasExtension),
                                           Candidates(StartDirectory(segments, hasExtension)), fileExists)
  {
    var start := StartDirectory(segments, hasExtension);
    var directories := start;
    projectDirectory := "";
    while |directories| > 0
      invariant Walk(directories, projectDirectory, fileExists) == Walk(start, "", fileExists)
      decreases |directories|
    {
      if IsCodeDirectory(directories[|directories| - 1]) && projectDirectory == "" {
        directories := DropLast(directories);
        var gemfileLocation := MarkerLocation(directories);
        if fileExists(gemfileLocation) {
          projectDirectory := ProjectDirectory(directories);
        }
      }
      directories := Pop(directories);
    }
    FindExecutionPathIsFirstMatch(start, fileExists);
  }

  /** The positions among `dirs[..top]` that the walk tests as code
      directories when no marker is found, deepest first. */
  function CandidatesBelow(dirs: seq<string>, top: nat): (cs: seq<nat>)
    requires top <= |dirs|
    // Walking upward: positions below `top`, strictly decreasing, and the
    // parent of every tested position is skipped.
    ensures forall i :: 0 <= i < |cs| ==> cs[i] < top
    ensures forall i, k :: 0 <= i < k < |cs| ==> cs[k] + 1 < cs[i]
    decreases top
  {
    if top == 0 then []
    else if IsCodeDirectory(dirs[top - 1]) then [top - 1] + CandidatesBelow(dirs, if top < 2 then 0 else top - 2)
    else CandidatesBelow(dirs, top - 1)
  }

  /** The positions of `dirs` the walk tests, deepest first. */
  function Candidates(dirs: seq<string>): seq<nat>
  {
    CandidatesBelow(dirs, |dirs|)
  }

  /** A position below `top` is tested exactly when it holds a code
      directory and the position under it was not tested (a tested
      directory's parent is popped untested). */
  ghost predicate TestedExactly(dirs: seq<string>, top: nat, cs: seq<nat>)
    requires top <= |dirs|
  {
    forall j: nat {:trigger dirs[j]} :: j < top ==> (j in cs <==> IsCodeDirectory(dirs[j]) && (j + 1) !in cs)
  }

  lemma {:induction false} CandidatesExact(dirs: seq<string>, top: nat)
    requires top <= |dirs|
    ensures TestedExactly(dirs, top, CandidatesBelow(dirs, top))
    decreases top
  {
    if top > 0 {
      CandidatesExact(dirs, NextTop(dirs, top));
      if IsCodeDirectory(dirs[top - 1]) {
        TestedAfterCode(dirs, top);
      } else {
        TestedAfterOther(dirs, top);
      }
    }
  }

  /** A code directory on top is tested, its parent skipped, and the
      positions further up are tested as before. */
  lemma TestedAfterCode(dirs: seq<string>, top: nat)
    requires 0 < top <= |dirs| && IsCodeDirectory(dirs[top - 1])
    requires TestedExactly(dirs, NextTop(dirs, top), CandidatesBelow(dirs, NextTop(dirs, top)))
    ensures TestedExactly(dirs, top, CandidatesBelow(dirs, top))
  {
    var below := NextTop(dirs, top);
    var rest := CandidatesBelow(dirs, below);
    var cs := CandidatesBelow(dirs, top);
    assert cs == [top - 1] + rest;
    forall j: nat | j < top
      ensures j in cs <==> IsCodeDirectory(dirs[j]) && (j + 1) !in cs
    {
      InCons(top - 1, rest, j);
      InCons(top - 1, rest, j + 1);
      BelowBound(rest, below, j);
      BelowBound(rest, below, j + 1);
    }
  }

  /** Any other directory on top is popped untested. */
  lemma TestedAfterOther(dirs: seq<string>, top: nat)
    requires 0 < top <= |dirs| && !IsCodeDirectory(dirs[top - 1])
    requires TestedExactly(dirs, top - 1, CandidatesBelow(dirs, top - 1))
    ensures TestedExactly(dirs, top, CandidatesBelow(dirs, top))
  {
    var cs := CandidatesBelow(dirs, top);
    assert cs == CandidatesBelow(dirs, top - 1);
    forall j: nat | j < top
      ensures j in cs <==> IsCodeDirectory(dirs[j]) && (j + 1) !in cs
    {
      BelowBound(cs, top - 1, j);
      BelowBound(cs, top - 1, j + 1);
    }
  }

  /** Membership in a list with one position put in front. */
  lemma InCons(t: nat, rest: seq<nat>, x: nat)
    ensures x in [t] + rest <==> x == t || x in rest
  {
    if x in rest {
      var k :| 0 <= k < |rest| && rest[k] == x;
      assert ([t] + rest)[k + 1] == x;
    }
  }

  /** No element of a list of positions below `bound` reaches it. */
  lemma BelowBound(cs: seq<nat>, bound: nat, j: nat)
    requires forall i :: 0 <= i < |cs| ==> cs[i] < bound
    ensures bound <= j ==> j !in cs
  {
  }

  /** Whether the marker file sits in the directory `dirs[..c]`. */
  predicate MarkerBeside(dirs: seq<string>, c: nat, fileExists: string -> bool)
    requires c <= |dirs|
  {
    fileExists(MarkerLocation(dirs[..c]))
  }

  /** Index in `cs` of the first candidate with the marker beside it, or
      `|cs|` when there is none. */
  function FirstMatchIndex(dirs: seq<string>, cs: seq<nat>, fileExists: string -> bool): (i: nat)
    requires forall k :: 0 <= k < |cs| ==> cs[k] <= |dirs|
    ensures i <= |cs|
    ensures i < |cs| ==> MarkerBeside(dirs, cs[i], fileExists)
    ensures forall j :: 0 <= j < i ==> !MarkerBeside(dirs, cs[j], fileExists)
    decreases |cs|
  {
    if |cs| == 0 || MarkerBeside(dirs, cs[0], fileExists) then 0
    else 1 + FirstMatchIndex(dirs, cs[1..], fileExists)
  }

  /** The root the first candidate with a marker beside it yields, or "". */
  function FirstMatch(dirs: seq<string>, cs: seq<nat>, fileExists: string -> bool): string
    requires forall k :: 0 <= k < |cs| ==> cs[k] <= |dirs|
  {
    var i := FirstMatchIndex(dirs, cs, fileExists);
    if i < |cs| then ProjectDirectory(dirs[..cs[i]]) else ""
  }

  /** Where the walk over `dirs[..top]` goes after its first turn, with no
      root known yet. */
  function NextTop(dirs: seq<string>, top: nat): (t: nat)
    requires 0 < top <= |dirs|
    ensures t < top
  {
    if IsCodeDirectory(dirs[top - 1]) then (if top < 2 then 0 else top - 2) else top - 1
  }

  /** The first turn of the walk over `dirs[..top]`: a tested code directory
      with the marker beside it ends the search; otherwise the walk goes on
      from `NextTop`. */
  lemma WalkFirstTurn(dirs: seq<string>, top: nat, fileExists: string -> bool)
    requires 0 < top <= |dirs|
    ensures Walk(dirs[..top], "", fileExists) ==
      if IsCodeDirectory(dirs[top - 1]) && MarkerBeside(dirs, top - 1, fileExists)
      then ProjectDirectory(dirs[..top - 1])
      else Walk(dirs[..NextTop(dirs, top)], "", fileExists)
  {
    var d := dirs[..top];
    var next := Step(d, "", fileExists);
    assert d[top - 1] == dirs[top - 1];
    assert DropLast(d) == dirs[..top - 1];
    assert next.0 == dirs[..NextTop(dirs, top)];
    if IsCodeDirectory(dirs[top - 1]) && MarkerBeside(dirs, top - 1, fileExists) {
      WalkKeepsFound(next.0, next.1, fileExists);
    }
  }

  /** The first candidate below `top`, read the same way. */
  lemma FirstMatchFirstTurn(dirs: seq<string>, top: nat, fileExists: string -> bool)
    requires 0 < top <= |dirs|
    ensures FirstMatch(dirs, CandidatesBelow(dirs, top), fileExists) ==
      if IsCodeDirectory(dirs[top - 1]) && MarkerBeside(dirs, top - 1, fileExists)
      then ProjectDirectory(dirs[..top - 1])
      else FirstMatch(dirs, CandidatesBelow(dirs, NextTop(dirs, top)), fileExists)
  {
    if IsCodeDirectory(dirs[top - 1]) {
      var cs := CandidatesBelow(dirs, top);
      var rest := CandidatesBelow(dirs, NextTop(dirs, top));
      assert cs == [top - 1] + rest;
      assert cs[1..] == rest;
      var i := FirstMatchIndex(dirs, cs, fileExists);
      if !MarkerBeside(dirs, top - 1, fileExists) {
        var j := FirstMatchIndex(dirs, rest, fileExists);
        assert i == 1 + j;
        assert j < |rest| ==> cs[i] == rest[j];
      }
    }
  }

  /** The walk over the first `top` segments returns the root of the first
      candidate, deepest first, whose parent holds the marker, and "" when
      there is none. */
  lemma {:induction false} WalkIsFirstMatch(dirs: seq<string>, top: nat, fileExists: string -> bool)
    requires top <= |dirs|
    ensures Walk(dirs[..top], "", fileExists) == FirstMatch(dirs, CandidatesBelow(dirs, top), fileExists)
    decreases top
  {
    if top > 0 {
      WalkFirstTurn(dirs, top, fileExists);
      FirstMatchFirstTurn(dirs, top, fileExists);
      WalkIsFirstMatch(dirs, NextTop(dirs, top), fileExists);
    }
  }

  /** The whole walk is the first match among all candidates. */
  lemma FindExecutionPathIsFirstMatch(dirs: seq<string>, fileExists: string -> bool)
    ensures Walk(dirs, "", fileExists) == FirstMatch(dirs, Candidates(dirs), fileExists)
  {
    WalkIsFirstMatch(dirs, |dirs|, fileExists);
    assert dirs[..|dirs|] == dirs;
  }

  /** A found root is the directory holding the marker beside the first
      tested code directory, deepest first, that has one; "" means no tested
      code directory has one. */
  lemma FindExecutionPathSpec(segments: seq<string>, hasExtension: bool, fileExists: string -> bool)
    ensures var dirs := StartDirectory(segments, hasExtension);
      var cs := Candidates(dirs);
      var i := FirstMatchIndex(dirs, cs, fileExists);
      var r := FindExecutionPath(segments, hasExtension, fileExists);
      && (r == "" <==> forall k :: 0 <= k < |cs| ==> !MarkerBeside(dirs, cs[k], fileExists))
      && (r == "" <==> i == |cs|)
      && (i < |cs| ==> IsCodeDirectory(dirs[cs[i]]) && r == ProjectDirectory(dirs[..cs[i]]))
  {
    var dirs := StartDirectory(segments, hasExtension);
    var cs := Candidates(dirs);
    FindExecutionPathIsFirstMatch(dirs, fileExists);
    CandidatesExact(dirs, |dirs|);
    var i := FirstMatchIndex(dirs, cs, fileExists);
    if i < |cs| {
      assert cs[i] in cs;
    }
  }

  /** `resolve_config_path`: "" when no root is found, otherwise the root
      joined with `config/config.yml`. */
  function ResolveConfigPath(segments: seq<string>, hasExtension: bool, fileExists: string -> bool): (r: string)
    ensures var root := FindExecutionPath(segments, hasExtension, fileExists);
      && (r == "" <==> root == "")
      && (r != "" ==> |r| >= |root| + |ConfigLocation()|)
      && (r != "" ==> r[..|root|] == root && r[|r| - |ConfigLocation()|..] == ConfigLocation())
      && (r != "" ==>
            if root[|root| - 1] == Separator then r == root + ConfigLocation()
            else r == root + "/" + ConfigLocation())
  {
    var root := FindExecutionPath(segments, hasExtension, fileExists);
    if root == "" then root else FileJoin(root, ConfigLocation())
  }

  /** `File.join('config', 'config.yml')`. */
  function ConfigLocation(): (r: string)
    ensures r == "config/config.yml"
  {
    FileJoin(ConfigDirectory, ConfigFileName)
  }

  /** A file system in which exactly one file exists. */
  function OnlyFile(path: string): string -> bool
  {
    (p: string) => p == path
  }

  /** A code directory on top whose parent holds the marker ends the walk
      with that parent's directory. */
  lemma WalkFindsMarker(dirs: seq<string>, fileExists: string -> bool)
    requires |dirs| > 0 && IsCodeDirectory(dirs[|dirs| - 1])
    requires fileExists(MarkerLocation(DropLast(dirs)))
    ensures Walk(dirs, "", fileExists) == ProjectDirectory(DropLast(dirs))
  {
    var next := Step(dirs, "", fileExists);
    WalkKeepsFound(next.0, next.1, fileExists);
  }

  /** A code directory on top whose parent lacks the marker: the walk goes
      on above the parent. */
  lemma WalkPassesUnmarked(dirs: seq<string>, fileExists: string -> bool)
    requires |dirs| > 0 && IsCodeDirectory(dirs[|dirs| - 1])
    requires !fileExists(MarkerLocation(DropLast(dirs)))
    ensures Walk(dirs, "", fileExists) == Walk(Pop(DropLast(dirs)), "", fileExists)
  {
  }

  /** `/home/myproj/lib/foo.rb` with a marker at `/home/myproj/Gemfile`
      resolves to `/home/myproj`. */
  lemma RootFoundExample()
    ensures FindExecutionPath(["", "home", "myproj", "lib", "foo.rb"], true,
                              OnlyFile("/home/myproj/Gemfile")) == "/home/myproj"
  {
    var parent := ["", "home", "myproj"];
    HomeLocation();
    var dirs := parent + ["lib"];
    assert StartDirectory(["", "home", "myproj", "lib", "foo.rb"], true) == dirs;
    assert DropLast(dirs) == parent;
    WalkFindsMarker(dirs, OnlyFile("/home/myproj/Gemfile"));
  }

  /** A candidate without a marker does not stop the walk: in `/a/lib/x/lib`
      the deeper `lib` fails and the outer one finds `/a`. */
  lemma WalkContinuesExample()
    ensures FindExecutionPath(["", "a", "lib", "x", "lib"], false, OnlyFile("/a/Gemfile")) == "/a"
  {
    var fileExists := OnlyFile("/a/Gemfile");
    var dirs := ["", "a", "lib", "x", "lib"];
    InnerLocation();
    OuterLocation();
    assert DropLast(dirs) == ["", "a", "lib", "x"];
    assert Pop(["", "a", "lib", "x"]) == ["", "a", "lib"];
    WalkPassesUnmarked(dirs, fileExists);
    assert DropLast(["", "a", "lib"]) == ["", "a"];
    WalkFindsMarker(["", "a", "lib"], fileExists);
  }

  /** The parent of a tested code directory is popped untested: in
      `/p/lib/spec` only `spec` is tested (against `/p/lib/Gemfile`), so a
      marker at `/p/Gemfile` beside `lib` is never seen. */
  lemma ParentSkippedExample()
    ensures OnlyFile("/p/Gemfile")(MarkerLocation(["", "p"]))
    ensures FindExecutionPath(["", "p", "lib", "spec"], false, OnlyFile("/p/Gemfile")) == ""
  {
    var fileExists := OnlyFile("/p/Gemfile");
    var dirs := ["", "p", "lib", "spec"];
    TopLocation();
    LibLocation();
    assert DropLast(dirs) == ["", "p", "lib"];
    assert Pop(["", "p", "lib"]) == ["", "p"];
    WalkPassesUnmarked(dirs, fileExists);
    WalkWithoutCodeDirectories(["", "p"], fileExists);
  }

  /** Where the examples above look for the marker. */
  lemma HomeLocation()
    ensures MarkerLocation(["", "home", "myproj"]) == "/home/myproj/Gemfile"
    ensures ProjectDirectory(["", "home", "myproj"]) == "/home/myproj"
  {
    assert Join(["", "home", "myproj"], Separator) == "/home/myproj";
    MarkerBesideJoined(["", "home", "myproj"], "/home/myproj");
    assert "/home/myproj" + "/" + Marker == "/home/myproj/Gemfile";
  }

  /** The marker beside the inner `lib` of `/a/lib/x/lib`. */
  lemma InnerLocation()
    ensures MarkerLocation(["", "a", "lib", "x"]) == "/a/lib/x/Gemfile"
  {
    assert Join(["", "a", "lib", "x"], Separator) == "/a/lib/x";
    MarkerBesideJoined(["", "a", "lib", "x"], "/a/lib/x");
    assert "/a/lib/x" + "/" + Marker == "/a/lib/x/Gemfile";
  }

  /** The marker beside the outer `lib` of `/a/lib/x/lib`, and the root it yields. */
  lemma OuterLocation()
    ensures MarkerLocation(["", "a"]) == "/a/Gemfile"
    ensures ProjectDirectory(["", "a"]) == "/a"
  {
    assert Join(["", "a"], Separator) == "/a";
    MarkerBesideJoined(["", "a"], "/a");
    assert "/a" + "/" + Marker == "/a/Gemfile";
  }

  /** The marker beside `lib` in `/p/lib/spec`, which the walk never tests. */
  lemma TopLocation()
    ensures MarkerLocation(["", "p"]) == "/p/Gemfile"
  {
    assert Join(["", "p"], Separator) == "/p";
    MarkerBesideJoined(["", "p"], "/p");
    assert "/p" + "/" + Marker == "/p/Gemfile";
  }

  /** The marker beside `spec` in `/p/lib/spec`, the one the walk does test. */
  lemma LibLocation()
    ensures MarkerLocation(["", "p", "lib"]) == "/p/lib/Gemfile"
  {
    assert Join(["", "p", "lib"], Separator) == "/p/lib";
    MarkerBesideJoined(["", "p", "lib"], "/p/lib");
    assert "/p/lib" + "/" + Marker == "/p/lib/Gemfile";
  }

  /** For a parent whose joined text ends in a name: the marker sits one
      separator after that text, and the directory it yields is that text. */
  lemma MarkerBesideJoined(parent: seq<string>, joined: string)
    requires Join(parent, Separator) == joined
    requires |joined| > 0 && joined[|joined| - 1] != Separator
    ensures MarkerLocation(parent) == joined + "/" + Marker
    ensures ProjectDirectory(parent) == joined
  {
  }

  /** A walk through segments none of which is a code directory finds nothing. */
  lemma {:induction false} WalkWithoutCodeDirectories(dirs: seq<string>, fileExists: string -> bool)
    requires forall i :: 0 <= i < |dirs| ==> !IsCodeDirectory(dirs[i])
    ensures Walk(dirs, "", fileExists) == ""
    decreases |dirs|
  {
    if |dirs| > 0 {
      WalkWithoutCodeDirectories(DropLast(dirs), fileExists);
    }
  }
}
