/** The configuration of the first revision (config.py): one registry of
    template extensions, written in lower case; a target and a blacklist
    checked on construction; and the decoded JSON object it is saved as and
    loaded from. The configuration value and its errors are those of the
    final revision (`Configuration.Config`, `Configuration.ConfigError`);
    only the rules differ. */
module LegacyConfig {
  import opened Wrappers
  import opened Names
  import opened FileSystem
  import opened StringOrder
  import opened JsonRecord
  import Configuration

  /** The template extensions; names are lower-cased before they are
      compared with these. */
  const TEMPLATE_FILE_EXTENSIONS: set<string> := {
    ".exp", ".hus", ".jef", ".pcs", ".sew", ".vip", ".vp3", ".xxx", ".shv",
    ".csd", ".art", ".jan", ".edr", ".inf", ".pec", ".pes", ".dst", ".ds_store"
  }

  /** Every entry of the registry is in lower case, so that a lower-cased
      name can equal it. */
  lemma RegistryIsLowerCase()
    ensures forall e :: e in TEMPLATE_FILE_EXTENSIONS ==> IsLower(e) && Lower(e) == e
  {
    forall e | e in TEMPLATE_FILE_EXTENSIONS
      ensures IsLower(e) && Lower(e) == e
    {
      NoUpperCase(e);
      LowerKeepsLower(e);
    }
  }

  /** Every registry entry is made of dots, underscores, digits and
      lower-case letters. */
  lemma NoUpperCase(e: string)
    requires e in TEMPLATE_FILE_EXTENSIONS
    ensures IsLower(e)
  {
    forall i | 0 <= i < |e|
      ensures e[i] == '.' || e[i] == '_' || '0' <= e[i] <= '9' || 'a' <= e[i] <= 'z'
    {
    }
  }

  /** `Configuration(target_directory, extensions_to_delete)`: a given target
      must exist and be a directory (checked in that order); a non-empty
      blacklist must lie inside the registry. */
  function New(fs: FileSystem, target: Option<Path>, extensions: set<string>)
    : (r: Result<Configuration.Config, Configuration.ConfigError>)
    ensures r.Success? <==> (target.None? || IsDir(fs, target.value)) && extensions <= TEMPLATE_FILE_EXTENSIONS
    ensures r.Success? ==> r.value == Configuration.Config(target, extensions)
    ensures target.Some? && target.value !in fs.nodes ==> r == Failure(Configuration.TargetMissing(target.value))
    ensures target.Some? && IsFile(fs, target.value) ==> r == Failure(Configuration.TargetNotDirectory(target.value))
    ensures (target.None? || IsDir(fs, target.value)) && !(extensions <= TEMPLATE_FILE_EXTENSIONS) ==>
      r == Failure(Configuration.UnrecognizedExtensions(extensions - TEMPLATE_FILE_EXTENSIONS))
  {
    if target.Some? && target.value !in fs.nodes then Failure(Configuration.TargetMissing(target.value))
    else if target.Some? && fs.nodes[target.value] != Dir then Failure(Configuration.TargetNotDirectory(target.value))
    else if extensions != {} && |extensions - TEMPLATE_FILE_EXTENSIONS| > 0 then
      Failure(Configuration.UnrecognizedExtensions(extensions - TEMPLATE_FILE_EXTENSIONS))
    else Success(Configuration.Config(target, extensions))
  }

  /** A configuration construction accepts on `fs`. */
  predicate Valid(fs: FileSystem, c: Configuration.Config) {
    New(fs, c.targetDirectory, c.extensionsToDelete) == Success(c)
  }

  /** `from_json` on the decoded object: the key and type checks, then an
      empty target text means no target and the list becomes a set, and
      construction decides. */
  function FromJson(fs: FileSystem, obj: JsonObject): (r: Result<Configuration.Config, LoadError>)
    ensures CheckKeys(obj).Failure? ==> r == Failure(CheckKeys(obj).error)
    ensures r.Success? ==> Valid(fs, r.value)
    ensures r.Success? ==> (r.value.targetDirectory.None? <==> obj.targetDirectory.text == "")
    ensures r.Success? ==> forall x :: x in r.value.extensionsToDelete <==> x in obj.extensionBlacklist.items
    ensures r.Success? && obj.targetDirectory.text != "" ==>
              r.value.targetDirectory == Some(Components(obj.targetDirectory.text))
    ensures CheckKeys(obj).Success? ==>
              var text := obj.targetDirectory.text;
              && (r.Success? <==>
                    (text == "" || IsDir(fs, Components(text))) && ItemSet(obj.extensionBlacklist.items) <= TEMPLATE_FILE_EXTENSIONS)
              && (r.Failure? ==> r.error.Rejected?)
  {
    match CheckKeys(obj)
    case Failure(e) => Failure(e)
    case Success((text, items)) =>
      var target := if text == "" then None else Some(Components(text));
      match New(fs, target, ItemSet(items))
      case Failure(e) => Failure(Rejected(e))
      case Success(c) => Success(c)
  }

  /** `to_json`: an empty text for no target, the path otherwise, and the
      blacklist as a list. Python lists the set in an unspecified order;
      here it is the sorted order, and `DecodingIgnoresOrder` shows that the
      order makes no difference to loading. */
  function ToJson(c: Configuration.Config): (r: JsonObject)
    ensures r.targetDirectory.JsonString? && r.extensionBlacklist.JsonList?
    ensures c.targetDirectory.None? <==> r.targetDirectory.text == ""
    ensures forall x :: x in r.extensionBlacklist.items <==> x in c.extensionsToDelete
  {
    JsonObject(
      JsonString(if c.targetDirectory.None? then "" else PathString(c.targetDirectory.value)),
      JsonList(SortedElements(c.extensionsToDelete)))
  }

  /** Loading depends on the listed blacklist only through its elements. */
  lemma DecodingIgnoresOrder(fs: FileSystem, target: JsonField, a: seq<string>, b: seq<string>)
    requires forall x :: x in a <==> x in b
    ensures FromJson(fs, JsonObject(target, JsonList(a))) == FromJson(fs, JsonObject(target, JsonList(b)))
  {
    assert ItemSet(a) == ItemSet(b);
  }

  /** Saving and loading again gives the configuration back, provided the
      target's components are plain names. */
  lemma RoundTrip(fs: FileSystem, c: Configuration.Config)
    requires Valid(fs, c)
    requires c.targetDirectory.Some? ==>
      forall i :: 0 <= i < |c.targetDirectory.value| ==> PlainComponent(c.targetDirectory.value[i])
    ensures FromJson(fs, ToJson(c)) == Success(c)
  {
    var obj := ToJson(c);
    if c.targetDirectory.Some? {
      ComponentsOfPathString(c.targetDirectory.value);
      assert PathString(c.targetDirectory.value) != "";
    }
    assert ItemSet(obj.extensionBlacklist.items) == c.extensionsToDelete;
  }

  /** `load_config`: with no file, the empty configuration; otherwise what
      `from_json` gives, its errors included. */
  function LoadConfig(fs: FileSystem, file: Option<JsonObject>): (r: Result<Configuration.Config, LoadError>)
    ensures file.None? ==> r == Success(Configuration.Config(None, {}))
    ensures r.Success? ==> Valid(fs, r.value)
    ensures file.Some? && CheckKeys(file.value).Failure? ==> r.Failure?
    ensures file.Some? ==> r == FromJson(fs, file.value)
  {
    if file.None? then Success(Configuration.Config(None, {})) else FromJson(fs, file.value)
  }
}
