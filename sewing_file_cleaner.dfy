/** The earliest revision (sewing_file_cleaner.py): a registry spelled in
    mixed case, a walk-up with no upper bound, matching by the exact suffix,
    and a configuration that is checked only when it is loaded. The
    filesystem is threaded through as a value, and an exception that escapes
    is a `Failure`. Loading and saving are modelled as written, and
    alongside as evidently intended. */
module SewingFileCleaner {
  import opened Wrappers
  import opened Names
  import opened FileSystem
  import opened StringOrder
  import opened JsonRecord
  import opened EarlyWalk
  import opened World
  import Configuration

  const SEWING_FILE_EXTENSIONS: set<string> := {
    ".exp", ".hus", ".jef", ".pcs", ".sew", ".vip", ".vp3", ".xxx", ".shv",
    ".csd", ".art", ".jan", ".edr", ".inf", ".pec", ".DS_Store"
  }

  /** The configuration record; nothing is checked on construction. */
  datatype SewingConfig = SewingConfig(targetDirectory: Option<Path>, extensionBlacklist: set<string>)

  // ----- Deletion -----

  /** `delete_and_clean_empty_directories(file_to_delete)`: as in cleaner.py
      but with no directory to stop at. */
  method DeleteAndCleanEmptyDirectories(fs: FileSystem, file: Path) returns (r: Result<FileSystem, Raised>)
    ensures r == DeleteAndClean(fs, file, None)
  {
    var unlinkError := UnlinkError(fs, file);
    if unlinkError.Some? {
      return Failure(OsFailure(unlinkError.value));
    }
    var current := Parent(file);
    var now := Remove(fs, file);
    while true
      invariant Climb(now, current, None) == DeleteAndClean(fs, file, None)
      decreases |now.nodes|
    {
      if !IsDir(now, current) {
        return Failure(AssertionFailed);
      }
      if !IsDirectoryEmpty(now, current) {
        return Success(now);
      }
      var rmdirError := RmdirError(now, current);
      if rmdirError.Some? {
        return Failure(OsFailure(rmdirError.value));
      }
      assert |now.nodes - {current}| < |now.nodes|;
      now := Remove(now, current);
      current := Parent(current);
    }
  }

  /** `delete_files_by_extension`: every entry listed below the target that
      is a file at its turn and whose suffix, exactly as spelled, is in the
      set is deleted and cleaned up after. `unlinked` lists those files. */
  method DeleteFilesByExtension(fs: FileSystem, target: Path, extensions: set<string>)
    returns (r: Result<FileSystem, Raised>, ghost unlinked: seq<Path>)
    ensures match DeleteEach(fs, Descendants(fs, target), None, ExactSuffix, extensions)
      case Failure(e) => r == Failure(e)
      case Success((fs', u)) => r == Success(fs') && unlinked == u
    ensures WellFormed(fs) && r.Failure? ==> r.error == AssertionFailed
    ensures WellFormed(fs) && r.Success? ==> WellFormed(r.value) && Shrunk(fs, r.value)
    ensures WellFormed(fs) && r.Success? ==>
              UnlinkFacts(fs, r.value, unlinked, Descendants(fs, target), ExactSuffix, extensions)
    ensures WellFormed(fs) && r.Success? ==>
              forall p :: IsFile(fs, p) ==>
                (p !in r.value.nodes <==> StrictlyBelow(target, p) && Suffix(Name(p)) in extensions)
  {
    r, unlinked := DeleteListed(fs, Descendants(fs, target), extensions);
    if WellFormed(fs) {
      DeleteEachWithoutTop(fs, Descendants(fs, target), ExactSuffix, extensions);
    }
  }

  /** The loop of `delete_files_by_extension` over the listing `paths`. */
  method DeleteListed(fs: FileSystem, paths: seq<Path>, extensions: set<string>)
    returns (r: Result<FileSystem, Raised>, ghost unlinked: seq<Path>)
    ensures match DeleteEach(fs, paths, None, ExactSuffix, extensions)
      case Failure(e) => r == Failure(e)
      case Success((fs', u)) => r == Success(fs') && unlinked == u
  {
    var now := fs;
    unlinked := [];
    for i := 0 to |paths|
      invariant DeleteEach(fs, paths[..i], None, ExactSuffix, extensions) == Success((now, unlinked))
    {
      var p := paths[i];
      assert paths[..i + 1][..i] == paths[..i];
      if !IsFile(now, p) {
        continue;
      }
      if Suffix(Name(p)) !in extensions {
        continue;
      }
      var step := DeleteAndCleanEmptyDirectories(now, p);
      if step.Failure? {
        FailureSticks(fs, paths, i + 1, None, ExactSuffix, extensions);
        return Failure(step.error), unlinked;
      }
      now := step.value;
      unlinked := unlinked + [p];
    }
    assert paths[..|paths|] == paths;
    return Success(now), unlinked;
  }

  /** The registry lists `.DS_Store`, but a `.DS_Store` file has no suffix,
      so no blacklist drawn from the registry selects it. */
  lemma DsStoreNeverSelected(extensions: set<string>)
    requires extensions <= SEWING_FILE_EXTENSIONS
    ensures ".DS_Store" in SEWING_FILE_EXTENSIONS
    ensures !Selects(ExactSuffix, ".DS_Store", extensions)
  {
    DsStoreHasNoSuffix();
    assert "" !in SEWING_FILE_EXTENSIONS;
  }

  /** The suffix is compared exactly as spelled. */
  lemma SuffixIsCaseSensitive()
    ensures Selects(ExactSuffix, "design.pec", SEWING_FILE_EXTENSIONS)
    ensures !Selects(ExactSuffix, "design.PEC", SEWING_FILE_EXTENSIONS)
  {
    SuffixOfInnerDot("design", "pec");
    SuffixOfInnerDot("design", "PEC");
    assert "design" + "." + "pec" == "design.pec";
    assert "design" + "." + "PEC" == "design.PEC";
    assert ".PEC" !in SEWING_FILE_EXTENSIONS;
  }

  /** The walk-up does not spare the directory the pass started from:
      deleting the only entry of a directory removes that directory too, and
      the walk fails only by running past the root. */
  lemma EmptiedDirectoryRemoved(fs: FileSystem, file: Path, dir: Path)
    requires WellFormed(fs) && IsFile(fs, file) && file != [] && Parent(file) == dir
    requires Children(fs, dir) == [file]
    ensures DeleteAndClean(fs, file, None).Failure? ==> DeleteAndClean(fs, file, None).error == AssertionFailed
    ensures DeleteAndClean(fs, file, None).Success? ==> dir !in DeleteAndClean(fs, file, None).value.nodes
  {
    var fs1 := Remove(fs, file);
    FileHasNoChild(fs, file);
    RemoveChildless(fs, file);
    assert IsDir(fs, Parent(file));
    forall c | c in fs1.nodes && c != []
      ensures Parent(c) != dir
    {
      assert c in fs.order;
      assert c in Children(fs, dir) <==> c == file;
    }
    var _ := ClimbWithoutTop(fs1, dir);
  }

  // ----- Configuration -----

  /** The two kinds of Python value the guard of `from_json` compares: a set,
      and the literal `{}`, which is an empty dict. */
  datatype PyValue = PySet(members: set<string>) | PyDict(keys: set<string>)

  /** Python `==`: a set never equals a dict. */
  predicate PyEqual(a: PyValue, b: PyValue) {
    match a
    case PySet(x) => b.PySet? && b.members == x
    case PyDict(x) => b.PyDict? && b.keys == x
  }

  /** `from_json` as written: the key and type checks, then the target must
      exist and be a directory; then the unrecognized extensions are compared
      with `{}`. */
  function FromJson(fs: FileSystem, obj: JsonObject): (r: Result<SewingConfig, LoadError>)
    ensures CheckKeys(obj).Failure? ==> r == Failure(CheckKeys(obj).error)
    ensures CheckKeys(obj).Success? && Components(obj.targetDirectory.text) !in fs.nodes ==>
      r == Failure(Rejected(Configuration.TargetMissing(Components(obj.targetDirectory.text))))
    ensures CheckKeys(obj).Success? && IsFile(fs, Components(obj.targetDirectory.text)) ==>
      r == Failure(Rejected(Configuration.TargetNotDirectory(Components(obj.targetDirectory.text))))
  {
    match CheckKeys(obj)
    case Failure(e) => Failure(e)
    case Success((text, items)) =>
      var target := Components(text);
      if target !in fs.nodes then Failure(Rejected(Configuration.TargetMissing(target)))
      else if fs.nodes[target] != Dir then Failure(Rejected(Configuration.TargetNotDirectory(target)))
      else
        var blacklist := ItemSet(items);
        if !PyEqual(PySet(blacklist - SEWING_FILE_EXTENSIONS), PyDict({})) then
          Failure(Rejected(Configuration.UnrecognizedExtensions(blacklist - SEWING_FILE_EXTENSIONS)))
        else Success(SewingConfig(Some(target), blacklist))
  }

  /** Since a set never equals `{}`, loading never succeeds: an object that
      passes every other check, even with an empty blacklist, is rejected
      for unrecognized extensions. */
  lemma FromJsonAlwaysFails(fs: FileSystem, obj: JsonObject)
    ensures FromJson(fs, obj).Failure?
    ensures CheckKeys(obj).Success? && IsDir(fs, Components(obj.targetDirectory.text)) ==>
      FromJson(fs, obj) == Failure(Rejected(Configuration.UnrecognizedExtensions(ItemSet(obj.extensionBlacklist.items) - SEWING_FILE_EXTENSIONS)))
  {
  }

  /** `from_json` as evidently intended: an empty target text means no
      target, as the later revisions have it, and the blacklist must lie
      inside the registry. */
  function FromJsonIntended(fs: FileSystem, obj: JsonObject): (r: Result<SewingConfig, LoadError>)
    ensures CheckKeys(obj).Failure? ==> r == Failure(CheckKeys(obj).error)
    ensures r.Success? <==>
      && CheckKeys(obj).Success?
      && (obj.targetDirectory.text == "" || IsDir(fs, Components(obj.targetDirectory.text)))
      && ItemSet(obj.extensionBlacklist.items) <= SEWING_FILE_EXTENSIONS
    ensures r.Success? ==>
      && (r.value.targetDirectory.None? <==> obj.targetDirectory.text == "")
      && r.value.extensionBlacklist == ItemSet(obj.extensionBlacklist.items)
  {
    match CheckKeys(obj)
    case Failure(e) => Failure(e)
    case Success((text, items)) =>
      var target := if text == "" then None else Some(Components(text));
      if target.Some? && target.value !in fs.nodes then Failure(Rejected(Configuration.TargetMissing(target.value)))
      else if target.Some? && fs.nodes[target.value] != Dir then Failure(Rejected(Configuration.TargetNotDirectory(target.value)))
      else
        var blacklist := ItemSet(items);
        if blacklist - SEWING_FILE_EXTENSIONS != {} then
          Failure(Rejected(Configuration.UnrecognizedExtensions(blacklist - SEWING_FILE_EXTENSIONS)))
        else Success(SewingConfig(target, blacklist))
  }

  /** What `to_json` raises: `None` has no `resolve`. */
  datatype SaveError = NoneHasNoResolve

  /** `to_json` as written: the target's path and the blacklist as a list
      (here in sorted order; Python's order is unspecified). */
  function ToJson(c: SewingConfig): (r: Result<JsonObject, SaveError>)
    ensures r.Failure? <==> c.targetDirectory.None?
    ensures r.Success? ==>
      && r.value.targetDirectory == JsonString(PathString(c.targetDirectory.value))
      && r.value.extensionBlacklist.JsonList?
      && (forall x :: x in r.value.extensionBlacklist.items <==> x in c.extensionBlacklist)
  {
    if c.targetDirectory.None? then Failure(NoneHasNoResolve)
    else Success(JsonObject(JsonString(PathString(c.targetDirectory.value)), JsonList(SortedElements(c.extensionBlacklist))))
  }

  /** The configuration the program builds when no file exists cannot be
      saved. */
  lemma DefaultCannotBeSaved()
    ensures ToJson(SewingConfig(None, {})) == Failure(NoneHasNoResolve)
  {
  }

  /** `to_json` as evidently intended: an empty text for no target. */
  function ToJsonIntended(c: SewingConfig): (r: JsonObject)
    ensures r.targetDirectory.JsonString? && r.extensionBlacklist.JsonList?
    ensures c.targetDirectory.None? <==> r.targetDirectory.text == ""
    ensures forall x :: x in r.extensionBlacklist.items <==> x in c.extensionBlacklist
  {
    JsonObject(
      JsonString(if c.targetDirectory.None? then "" else PathString(c.targetDirectory.value)),
      JsonList(SortedElements(c.extensionBlacklist)))
  }

  /** Saving and loading again, as intended, gives back any configuration
      loading would accept, the default one included. */
  lemma RoundTrip(fs: FileSystem, c: SewingConfig)
    requires c.targetDirectory.Some? ==> IsDir(fs, c.targetDirectory.value)
    requires c.extensionBlacklist <= SEWING_FILE_EXTENSIONS
    requires c.targetDirectory.Some? ==>
      forall i :: 0 <= i < |c.targetDirectory.value| ==> PlainComponent(c.targetDirectory.value[i])
    ensures FromJsonIntended(fs, ToJsonIntended(c)) == Success(c)
  {
    var obj := ToJsonIntended(c);
    if c.targetDirectory.Some? {
      ComponentsOfPathString(c.targetDirectory.value);
      assert PathString(c.targetDirectory.value) != "";
    }
    assert ItemSet(obj.extensionBlacklist.items) == c.extensionBlacklist;
  }
}
