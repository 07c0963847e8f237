/** The validated run configuration of the final revision: an optional target
    directory and the set of extensions to delete, checked against two fixed
    registries; and the record it is stored as. The JSON text and the file
    reads and writes around that record are not modelled. */
module Configuration {
  import opened Wrappers
  import opened FileSystem
  import opened StringOrder

  /** Embroidery-machine formats: the candidates for deletion. */
  const TEMPLATE_FILE_EXTENSIONS: set<string> := {
    ".exp", ".hus", ".jef", ".pcs", ".rgb", ".sew", ".vip", ".vp3", ".xxx", ".shv",
    ".csd", ".art", ".jan", ".edr", ".emb", ".inf", ".pec", ".pes", ".dst", ".ds_store"
  }

  /** Preview files: a directory holding only these counts as empty once the
      user agrees to discard them. */
  const DISPLAY_FILE_EXTENSIONS: set<string> := {".pdf", ".png", ".jpg"}

  datatype Config = Config(targetDirectory: Option<Path>, extensionsToDelete: set<string>)

  /** The `ValueError`s construction and loading raise. */
  datatype ConfigError =
    | TargetMissing(path: Path)
    | TargetNotDirectory(path: Path)
    | UnrecognizedExtensions(extensions: set<string>)
    | Unreadable

  lemma RegistriesDisjoint()
    ensures TEMPLATE_FILE_EXTENSIONS !! DISPLAY_FILE_EXTENSIONS
  {
  }

  /** `Configuration(target_directory, extensions_to_delete)`: the target, when
      given, must be an existing directory (checked in that order), and every
      extension must be in one of the registries, exactly as spelled. */
  function New(fs: FileSystem, target: Option<Path>, extensions: set<string>): (r: Result<Config, ConfigError>)
    ensures r.Success? <==>
      (target.None? || IsDir(fs, target.value))
      && extensions <= TEMPLATE_FILE_EXTENSIONS + DISPLAY_FILE_EXTENSIONS
    ensures r.Success? ==> r.value.targetDirectory == target && r.value.extensionsToDelete == extensions
    ensures target.Some? && target.value !in fs.nodes ==> r == Failure(TargetMissing(target.value))
    ensures target.Some? && IsFile(fs, target.value) ==> r == Failure(TargetNotDirectory(target.value))
    ensures (target.None? || IsDir(fs, target.value)) && !(extensions <= TEMPLATE_FILE_EXTENSIONS + DISPLAY_FILE_EXTENSIONS) ==>
      r == Failure(UnrecognizedExtensions(extensions - (TEMPLATE_FILE_EXTENSIONS + DISPLAY_FILE_EXTENSIONS)))
  {
    if target.Some? && target.value !in fs.nodes then Failure(TargetMissing(target.value))
    else if target.Some? && fs.nodes[target.value] != Dir then Failure(TargetNotDirectory(target.value))
    else
      var unrecognized := extensions - (TEMPLATE_FILE_EXTENSIONS + DISPLAY_FILE_EXTENSIONS);
      if unrecognized != {} then Failure(UnrecognizedExtensions(unrecognized))
      else Success(Config(target, extensions))
  }

  /** A configuration that construction accepts on `fs`. */
  predicate Valid(fs: FileSystem, c: Config) {
    New(fs, c.targetDirectory, c.extensionsToDelete) == Success(c)
  }

  /** Upper-case spellings are not folded: they are rejected. */
  lemma CaseSensitive(fs: FileSystem)
    ensures New(fs, None, {".DST"}) == Failure(UnrecognizedExtensions({".DST"}))
    ensures New(fs, None, {".dst"}).Success?
  {
    assert ".DST" !in TEMPLATE_FILE_EXTENSIONS + DISPLAY_FILE_EXTENSIONS;
    assert {".DST"} - (TEMPLATE_FILE_EXTENSIONS + DISPLAY_FILE_EXTENSIONS) == {".DST"};
  }

  /** The decoded JSON object: each key may be absent. */
  datatype ConfigRecord = ConfigRecord(targetDirectory: Option<string>, extensionsToDelete: Option<seq<string>>)

  /** What reading the configuration file yields: no file, text that is not
      JSON, or the decoded object. */
  datatype ConfigFile = NoFile | Corrupt | Document(record: ConfigRecord)

  /** A missing or empty `target_directory` means no target. */
  function DecodedTarget(rec: ConfigRecord): (r: Option<Path>)
    ensures r.None? <==> rec.targetDirectory.None? || rec.targetDirectory.value == ""
  {
    if rec.targetDirectory.None? || rec.targetDirectory.value == "" then None
    else Some(Components(rec.targetDirectory.value))
  }

  /** A missing `extensions_to_delete` means the empty set. */
  function DecodedExtensions(rec: ConfigRecord): (r: set<string>)
    ensures rec.extensionsToDelete.None? ==> r == {}
    ensures rec.extensionsToDelete.Some? ==> forall x :: x in r <==> x in rec.extensionsToDelete.value
  {
    if rec.extensionsToDelete.None? then {} else set x | x in rec.extensionsToDelete.value
  }

  /** `Configuration.from_json_file`: an unreadable file is a `ValueError`;
      otherwise the decoded fields go through construction. */
  function FromJsonFile(fs: FileSystem, file: ConfigFile): (r: Result<Config, ConfigError>)
    ensures !file.Document? ==> r == Failure(Unreadable)
    ensures r.Success? ==> Valid(fs, r.value)
    ensures file.Document? ==>
      var target := DecodedTarget(file.record);
      var extensions := DecodedExtensions(file.record);
      && (r.Success? <==>
            (target.None? || IsDir(fs, target.value)) && extensions <= TEMPLATE_FILE_EXTENSIONS + DISPLAY_FILE_EXTENSIONS)
      && (r.Success? ==> r.value == Config(target, extensions))
      && (r.Failure? ==> r.error != Unreadable)
  {
    match file
    case Document(rec) => New(fs, DecodedTarget(rec), DecodedExtensions(rec))
    case _ => Failure(Unreadable)
  }

  /** `to_json_str`: an empty string for no target, and the extensions sorted,
      under the keys the decoder reads. */
  function ToJsonStr(c: Config): (r: ConfigRecord)
    ensures r.targetDirectory.Some? && r.extensionsToDelete.Some?
    ensures c.targetDirectory.None? <==> r.targetDirectory.value == ""
    ensures StrictlySorted(r.extensionsToDelete.value)
    ensures forall x :: x in r.extensionsToDelete.value <==> x in c.extensionsToDelete
  {
    ConfigRecord(
      Some(if c.targetDirectory.None? then "" else PathString(c.targetDirectory.value)),
      Some(SortedElements(c.extensionsToDelete)))
  }

  /** Saving and loading again gives back the same configuration, provided the
      target's components are plain names. */
  lemma RoundTrip(fs: FileSystem, c: Config)
    requires Valid(fs, c)
    requires c.targetDirectory.Some? ==>
      forall i :: 0 <= i < |c.targetDirectory.value| ==> PlainComponent(c.targetDirectory.value[i])
    ensures FromJsonFile(fs, Document(ToJsonStr(c))) == Success(c)
  {
    var rec := ToJsonStr(c);
    if c.targetDirectory.Some? {
      ComponentsOfPathString(c.targetDirectory.value);
    }
    assert DecodedTarget(rec) == c.targetDirectory;
    assert DecodedExtensions(rec) == c.extensionsToDelete;
  }

  /** `load_config`: a missing or unusable file gives the empty default. */
  function LoadConfig(fs: FileSystem, file: ConfigFile): (c: Config)
    ensures Valid(fs, c)
    ensures FromJsonFile(fs, file).Success? ==> c == FromJsonFile(fs, file).value
    ensures FromJsonFile(fs, file).Failure? ==> c == Config(None, {})
  {
    var loaded := FromJsonFile(fs, file);
    if loaded.Success? then loaded.value else Config(None, {})
  }
}
