/** The failures the configuration engine can raise. */
module Errors {

  datatype Error =
    /** `FileNotFoundException`: the configuration file does not exist. */
    | FileNotFound(path: string)
    /** `InvalidConfigException`: the file parsed to nothing (nil or false). */
    | InvalidConfig(path: string)
    /** `parse_key` was given a key path that is nil or empty. */
    | KeyRequired
    /** A dotted-path segment resolved to nil or false; `key` is the dotted
        prefix consumed up to and including that segment. */
    | NoDefinedValue(key: string)
    /** A dotted-path segment was sent to a node that is not a mapping, where
        Ruby raises `NoMethodError`; `key` is the dotted prefix as above. */
    | NoSuchMethod(key: string)
    /** `deep_merge` was reached with a stored value or a document that is
        not a mapping, where Ruby raises. */
    | NotMergeable

  /** Errors whose message text the engine itself writes. */
  predicate HasOwnMessage(e: Error)
  {
    e.FileNotFound? || e.InvalidConfig? || e.KeyRequired? || e.NoDefinedValue?
  }

  /** The message text the engine raises with. */
  function Message(e: Error): (m: string)
    requires HasOwnMessage(e)
    ensures e.NoDefinedValue? ==>
      && |m| == |e.key| + 32
      && m[..11] == "config_key "
      && m[11..11 + |e.key|] == e.key
      && m[11 + |e.key|..] == " has no defined value"
    ensures e.FileNotFound? ==> |m| > |e.path| && m[..|e.path|] == e.path
    ensures e.FileNotFound? ==> m == e.path + " not found"
    ensures e.InvalidConfig? ==> |m| > |e.path| && m[|m| - |e.path|..] == e.path
    ensures e.InvalidConfig? ==> m == "YAML unable to parse empty " + e.path
    ensures e.KeyRequired? ==> m == "config_key required"
  {
    match e
    case FileNotFound(p) => p + " not found"
    case InvalidConfig(p) => "YAML unable to parse empty " + p
    case KeyRequired => "config_key required"
    case NoDefinedValue(k) => "config_key " + k + " has no defined value"
  }
}
