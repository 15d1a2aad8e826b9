# clean_config configuration engine in Dafny

A model of the configuration engine of the Ruby gem `clean_config`
(`CleanConfig::Configuration`) and the two hash-like methods it adds to the
wrapped view (`RecursiveOpenStruct#keys` and `#fetch`).

The engine keeps one merged configuration document:

- It finds the project root by walking up from the caller's source file.
  A `lib`, `spec` or `bin` directory whose parent holds a `Gemfile` marks
  the root.
- From the root it derives `config/config.yml`.
- It adds YAML documents by deep merge.
- It answers strict dotted-path queries (`parse_key('a.b.c')`). A
  missing or falsy segment raises with a message naming the dotted prefix
  consumed so far.

Modules, one per concern:

| module | file | what it holds |
|---|---|---|
| `Wrappers` | wrappers.dfy | `Option` and `Result` |
| `Text` | text.dfy | `Array#join` and `String#split` on one character, trailing-character trimming |
| `Document` | document.dfy | the document `Value` (mapping, sequence, string, integer, boolean, nil), Ruby truthiness, lenient member access, path lookup |
| `Errors` | errors.dfy | the failures the engine raises and their message texts |
| `PathResolver` | paths.dfy | `find_execution_path` and `resolve_config_path` |
| `StructuralMerger` | merger.dfy | the deep-merge rule |
| `KeyPathAccessor` | keypath.dfy | `parse_key` and `parse_key_recursive` |
| `DynamicView` | view.dfy | `keys` and `fetch` |
| `ConfigStore` | store.dfy | the store: `merge!`, `reset!`, `empty?`, `add!`, `load!`, lenient access |

The process-wide singleton is an immutable `Store` value. Every mutator
returns the next store, or a `Failure` carrying the error Ruby would raise.
A failure returns no store, so the caller's store is the one that survives.

Paths arrive already split on `/`. Whether a path has a file extension, and
which files exist, are parameters. The YAML parser is a parameter from path
to document. An empty file parses to `false`, which is `Bool(false)` here;
`nil` is `Null`. `add!` refuses both, because neither is truthy.

### Behaviour worth noting

- Strict lookup after `reset!`: one might expect every strict lookup to
  fail once the store is cleared. The code splits with Ruby's `String#split('.')`,
  which discards trailing empty fields. So a key made only of dots
  (`"."`, `".."`) splits into no segments, and `parse_key` returns the
  root without looking anything up. On a reset store that root is nil, so
  the call returns nil instead of raising. The model follows the code (see
  `ConfigStore.LookupAfterReset`).
- Order of the walk: `find_execution_path` pops twice when it examines a
  code directory (lines 67 and 71). The parent of a tested `lib`/`spec`/`bin`
  directory is therefore never itself tested as a code directory. The
  model keeps this behaviour (`PathResolver.ParentSkippedExample`).

## Model

| member | source | states |
|---|---|---|
| Text.Split | lib/clean_config/configuration.rb:117 | `split('.')` keeps every field between separators except a run of empty fields at the end, which it drops; no segment contains the separator |
| Text.SplitRejoin | lib/clean_config/configuration.rb:117 | joining the segments `split` returns gives the key back, except for a run of trailing separators that split discards |
| Text.JoinFields | lib/clean_config/configuration.rb:117 | before trailing empty fields are dropped, splitting on a character and joining with it is the identity |
| Text.JoinPrefix | lib/clean_config/configuration.rb:152-155 | the dotted message built from the first i segments is a prefix of the message built from all of them |
| Text.TrimEnd | lib/clean_config/configuration.rb:69 | the trimmed text is a prefix of the input, does not end in the trimmed character, and only copies of it were removed |
| Document.Member | lib/clean_config/configuration.rb:153 | sending a member name to a wrapped mapping gives the stored value, or nil when the name is missing |
| Errors.Message | lib/clean_config/configuration.rb:154 | the message reads `config_key `, then the dotted prefix, then ` has no defined value`, so the prefix can be read back from it. A missing file's message is its path followed by ` not found` (line 92); an empty document's message is `YAML unable to parse empty ` followed by its path (line 96); a missing key gives `config_key required` (line 116) |
| PathResolver.Pop | lib/clean_config/configuration.rb:67-71 | popping removes exactly the last segment, and does nothing on an empty list |
| PathResolver.FileJoin | lib/clean_config/configuration.rb:68 | `File.join(dir, name)` is `dir`, then a `/` exactly when `dir` does not already end with one (so an empty `dir` gives `/name`), then `name` |
| PathResolver.ProjectDirectory | lib/clean_config/configuration.rb:69 | the root yielded beside a marker is `File.dirname` of the marker's location: the joined parent segments themselves when they are non-empty and do not end with `/`, `/` when they consist only of separators, and in every case a non-empty prefix of the joined segments or `/` |
| PathResolver.StartDirectory | lib/clean_config/configuration.rb:61 | a path with an extension is reduced to its directory before the walk; any other path is walked as it is |
| PathResolver.Step | lib/clean_config/configuration.rb:65-72 | each turn removes at least one segment. A code directory examined with no root known also loses its parent, untested. A root once found is never replaced. A new root is set only beside a code directory whose parent holds the marker |
| PathResolver.WalkKeepsFound | lib/clean_config/configuration.rb:66-69 | once a root is found, the rest of the walk returns it unchanged |
| PathResolver.CandidatesBelow | lib/clean_config/configuration.rb:65-72 | the positions the walk tests are strictly decreasing, and no two of them are adjacent |
| PathResolver.CandidatesExact | lib/clean_config/configuration.rb:66-71 | a position is tested exactly when it holds `lib`/`spec`/`bin` and the position below it was not tested |
| PathResolver.FirstMatchIndex | lib/clean_config/configuration.rb:65-73 | returns the index of the first tested position whose parent holds the marker; no earlier position has one |
| PathResolver.WalkIsFirstMatch | lib/clean_config/configuration.rb:60-74 | the popping walk returns the root beside the deepest tested code directory whose parent holds the marker, and `""` when there is none |
| PathResolver.FindExecutionPathIsFirstMatch | lib/clean_config/configuration.rb:60-74 | the same over the whole path |
| PathResolver.FindExecutionPathSpec | lib/clean_config/configuration.rb:60-74 | the result is `""` exactly when no tested code directory has the marker beside it. Otherwise it is the root beside the first code directory that has one, deepest first |
| PathResolver.FindExecutionPathLoop | lib/clean_config/configuration.rb:60-74 | the `until` loop with its two pops computes the first-match root |
| PathResolver.ConfigLocation | lib/clean_config/configuration.rb:30-33 | the default location derived from the `config` constant is `config/config.yml` |
| PathResolver.ResolveConfigPath | lib/clean_config/configuration.rb:48-54 | `""` exactly when no root is found. Otherwise it is the root, a `/` unless the root already ends with one, then `config/config.yml` |
| PathResolver.RootFoundExample | lib/clean_config/configuration.rb:60-74 | `/home/myproj/lib/foo.rb`, with a marker at `/home/myproj/Gemfile`, resolves to `/home/myproj` |
| PathResolver.WalkContinuesExample | lib/clean_config/configuration.rb:65-72 | a tested code directory without a marker does not stop the walk: `/a/lib/x/lib` finds `/a` |
| PathResolver.ParentSkippedExample | lib/clean_config/configuration.rb:67-71 | in `/p/lib/spec` only `spec` is tested, so a marker at `/p/Gemfile` is never found |
| StructuralMerger.DeepMerge | lib/clean_config/configuration.rb:106 | the merge of two mappings holds every key of either; keys on one side only keep that side's value; a non-mapping on either side yields the incoming value |
| StructuralMerger.SharedKey | lib/clean_config/configuration.rb:106 | under a key both mappings hold, the values merge recursively |
| StructuralMerger.MergeSelf | lib/clean_config/configuration.rb:106 | merging a document into itself changes nothing |
| StructuralMerger.MergeIdempotent | lib/clean_config/configuration.rb:106 | merging the same document a second time leaves the first result |
| StructuralMerger.MergeEmptyIncoming | lib/clean_config/configuration.rb:105 | merging an empty mapping, `merge!`'s default argument, leaves a mapping unchanged |
| StructuralMerger.IncomingLeafWins | lib/clean_config/configuration.rb:106 | every non-mapping value of the incoming document is found at its path in the result, replacing sequences and scalars wholesale |
| StructuralMerger.BaseLeafKept | lib/clean_config/configuration.rb:106 | a stored leaf survives when the incoming document has nothing at its path and only mappings on the way |
| StructuralMerger.MergedLeafOrigin | lib/clean_config/configuration.rb:106 | every leaf of the result comes from the incoming document or the stored one, at the same path |
| KeyPathAccessor.SplitKey | lib/clean_config/configuration.rb:117 | the segments are the fields between dots, minus the run of empty fields at the end; none contains a dot |
| KeyPathAccessor.Resolve | lib/clean_config/configuration.rb:149-159 | no segments left gives the node itself; a failure is always an undefined value or a member asked of a non-mapping, never the `config_key required` error |
| KeyPathAccessor.ParseKey | lib/clean_config/configuration.rb:115-118 | fails with `config_key required` exactly when the key is nil or empty |
| KeyPathAccessor.ResolveSpec | lib/clean_config/configuration.rb:149-159 | succeeds exactly when every prefix of the path is defined (neither nil nor false), and then returns the node the full path names. Otherwise it fails at the shortest undefined prefix, with the dotted message of the segments consumed so far including the failing one |
| KeyPathAccessor.ParseKeySpec | lib/clean_config/configuration.rb:115-118 | the same for `parse_key`, and the dotted prefix in the error is a prefix of the key the caller wrote |
| KeyPathAccessor.ResolveThrough | lib/clean_config/configuration.rb:150-155 | one resolution step through a defined member continues from that member with the segment appended to the message |
| KeyPathAccessor.ResolveMissing | lib/clean_config/configuration.rb:154 | a nil or false member of a mapping fails at once, naming the consumed prefix |
| KeyPathAccessor.SplitExamples | lib/clean_config/configuration.rb:117 | `"a.b.c"` splits into `a`, `b`, `c` and `"a.x"` into `a`, `x` |
| KeyPathAccessor.StrictFoundExample | lib/clean_config/configuration.rb:149-158 | on `{a: {b: {c: 42}}}`, `parse_key('a.b.c')` gives 42 |
| KeyPathAccessor.StrictMissingExample | lib/clean_config/configuration.rb:154 | on the same document `parse_key('a.x')` fails with the prefix `a.x` |
| DynamicView.Keys | lib/clean_config/ext/recursive_open_struct.rb:5-7 | the names returned are exactly the keys of the wrapped mapping, each once |
| DynamicView.Fetch | lib/clean_config/ext/recursive_open_struct.rb:13-15 | a present key gives its stored value, even nil or false; an absent key gives the default |
| DynamicView.FetchIgnoresDefault | spec/unit/recursive_open_struct_spec.rb:16-18 | for a present key the default does not affect the result |
| DynamicView.FetchWithoutDefaultIsMember | lib/clean_config/ext/recursive_open_struct.rb:13 | `fetch` with its nil default answers as lenient member access does |
| ConfigStore.Wrap | lib/clean_config/configuration.rb:107 | wrapping nil or false gives an empty mapping; any other document keeps its structure |
| ConfigStore.Reset | lib/clean_config/configuration.rb:135-139 | after `reset!` the store is empty and holds no document |
| ConfigStore.Merge | lib/clean_config/configuration.rb:105-109 | a store with no document adopts the incoming one unchanged. A loaded store fails exactly when either side is not a mapping, and otherwise holds the deep merge of the stored and incoming documents, with the union of their keys. After success the store is never empty, and its view is rebuilt from the merged document |
| ConfigStore.MergeIncomingLeafWins | lib/clean_config/configuration.rb:106 | after any successful `merge!`, every scalar or sequence of the incoming document is found at its path in the store |
| ConfigStore.MergeStoredLeafKept | lib/clean_config/configuration.rb:106 | on a loaded store, a stored scalar or sequence survives `merge!` when the incoming document has nothing at its path and only mappings on the way |
| ConfigStore.MergeTwiceSameAsOnce | lib/clean_config/configuration.rb:105-109 | merging the same mapping twice leaves the store the first merge left |
| ConfigStore.Attribute | lib/clean_config/configuration.rb:121-123 | lenient access fails only when the view is not a mapping; otherwise it gives the member, or nil when missing |
| ConfigStore.StrictFailureNamesPrefix | lib/clean_config/configuration.rb:149-159 | a failed strict lookup of a non-empty key names a dotted prefix of that key; an undefined value raises with `config_key <prefix> has no defined value` |
| ConfigStore.FetchOnView | lib/clean_config/ext/recursive_open_struct.rb:13-15 | `fetch` with its nil default on the store's view agrees with lenient member access |
| ConfigStore.ViewKeys | lib/clean_config/ext/recursive_open_struct.rb:5-7 | `keys` on the store's view returns exactly the held document's top-level names, each once |
| ConfigStore.LookupAfterReset | lib/clean_config/configuration.rb:115-118 | after `reset!` every key naming at least one segment fails; a key of dots only returns nil |
| ConfigStore.StrictVersusLenient | lib/clean_config/configuration.rb:149-159 | for a dot-free name on a loaded mapping, lenient access always succeeds. Strict lookup fails exactly when that value is nil or false, naming the key, and otherwise agrees with lenient access |
| ConfigStore.ConfigPathFor | lib/clean_config/configuration.rb:91 | the explicit path when one is given, otherwise the path resolved from the caller's file |
| ConfigStore.Add | lib/clean_config/configuration.rb:89-99 | a missing file fails first, naming the path. A document parsing to nil or false fails next. Only then is the document merged: a file that exists and parses to a truthy document gives exactly the result of `merge!` on it, and the resulting view is consistent with its data. A failure leaves the caller's store as it was |
| ConfigStore.Load | lib/clean_config/configuration.rb:81-83 | `load!` reads `config/config.yml` relative to the working directory, and fails naming it when it is missing |
| ConfigStore.InnerMergeExample | lib/clean_config/configuration.rb:106 | `{x: 1, y: 2}` merged with `{y: 3, z: 4}` gives `{x: 1, y: 3, z: 4}` |
| ConfigStore.MergeExample | lib/clean_config/configuration.rb:105-109 | two `merge!` calls with `{a: {x: 1, y: 2}}` and `{a: {y: 3, z: 4}}` hold `{a: {x: 1, y: 3, z: 4}}` |
| ConfigStore.SequenceReplacedExample | lib/clean_config/configuration.rb:105-109 | a sequence under a shared key is replaced whole, not concatenated |
| ConfigStore.LenientMissingExample | lib/clean_config/configuration.rb:121-123 | lenient access to a missing member gives nil where strict lookup raises |

## Left out

- Caller inference (`caller.first.split(':')`, line 90) is left out: the caller's source file is a parameter of `ConfigStore.Add`.
- YAML parsing (line 95) is a parameter from path to document. Parse errors of malformed YAML are not modelled.
- `File.exist?` is a parameter. `File.extname` is a boolean parameter.
- `File.dirname` is modelled in two places. At line 61 it drops the last segment of a path with an extension (`PathResolver.StartDirectory`). At line 69 it trims the marker location (`PathResolver.ProjectDirectory`). A bare file name such as `foo.rb` has dirname `.` in Ruby; here it becomes the empty segment list, and the walk then finds nothing either way.
- Doubled separators and relative paths whose directory is `.` are not modelled.
- Logging (`ConfLogger`, the `DEBUG` environment variable, line 94) is left out.
- The `Singleton` mixin and `def_delegators :@data_hash, :[]` are left out: the store is an explicit value.
- Ruby dynamic dispatch is left out: `method_missing` and `send` can reach real Ruby methods such as `keys`, `size` or `first`. Member access is a plain mapping lookup, and asking a member of a non-mapping is the `NoSuchMethod` error.
- The difference between symbol and string keys is left out: keys are strings.
- Floating-point and date values are left out: the document holds strings, integers, booleans, nil, sequences and mappings.
- `recurse_over_arrays` wrapping of mappings inside sequences is left out. Nothing in the model reads through a sequence.
- The include hook in `lib/clean_config/configurable.rb` is not part of this model.
- DynamicView.Keys: does not state the order of the names, because Ruby's insertion order is not part of the mapping model.
- DynamicView.Keys: being read-only is implicit: `keys` and `fetch` are pure functions of the mapping and cannot change it.
- Documents are immutable values. On an empty store Ruby keeps the caller's own hash (`@data_hash = config`, line 106), and `deep_merge` shares nested incoming values. So a caller that later changes that hash in place changes what `[]` and the next `merge!` see, and the stored view may go stale. Value semantics cannot express this aliasing.
- ConfigStore.Wrap: a truthy document that is not a mapping (a string, number, `true` or a sequence) is kept as is. What `RecursiveOpenStruct.new` does with such a value is not modelled.
- ConfigStore.Merge: a truthy top-level document that is not a mapping is adopted on a fresh store and then wrapped as is. Ruby's `RecursiveOpenStruct.new` on such a value is not modelled.
- ConfigStore.Load: states only the missing-file error and non-emptiness after success. The rest follows from `ConfigStore.Add`, which it calls with the fixed path.
