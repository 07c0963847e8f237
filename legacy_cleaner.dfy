/** The first revision of the cleaning pass (cleaner.py): no events and no
    confirmation, a walk-up that stops when it reaches the target directory,
    and matching that ignores case. The filesystem is threaded through as a
    value, and an exception that escapes is a `Failure`. What the loops
    compute is `EarlyWalk.DeleteAndClean` and `EarlyWalk.DeleteEach`, and the
    properties are proved about those. */
module LegacyCleaner {
  import opened Wrappers
  import opened Names
  import opened FileSystem
  import opened EarlyWalk
  import opened World
  import Configuration

  /** `delete_and_clean_empty_directories(file_to_delete, top_directory)`. */
  method DeleteAndCleanEmptyDirectories(fs: FileSystem, file: Path, top: Option<Path>) returns (r: Result<FileSystem, Raised>)
    ensures r == DeleteAndClean(fs, file, top)
  {
    var unlinkError := UnlinkError(fs, file);
    if unlinkError.Some? {
      return Failure(OsFailure(unlinkError.value));
    }
    var current := Parent(file);
    var now := Remove(fs, file);
    while true
      invariant Climb(now, current, top) == DeleteAndClean(fs, file, top)
      decreases |now.nodes|
    {
      if !IsDir(now, current) {
        return Failure(AssertionFailed);
      }
      if !IsDirectoryEmpty(now, current) || top == Some(current) {
        return Success(now);
      }
      var rmdirError := RmdirError(now, current);
      if rmdirError.Some? {
        return Failure(OsFailure(rmdirError.value));
      }
      assert |now.nodes - {current}| < |now.nodes|;
      now := Remove(now, current);
      current := Parent(current);
    }
  }

  /** The name test of `delete_files_by_extension`: a name that starts with
      a dot by its whole lower-cased self, any other by its lower-cased
      suffix. */
  method IsSelected(name: string, extensions: set<string>) returns (selected: bool)
    ensures selected == Selects(FoldedNameOrSuffix, name, extensions)
  {
    if |name| > 0 && name[0] == '.' {
      selected := Lower(name) in extensions;
    } else {
      selected := Lower(Suffix(name)) in extensions;
    }
  }

  /** `delete_files_by_extension`: no target deletes nothing; otherwise
      every entry listed below the target that is a file at its turn and is
      selected, by its whole lower-cased name when it starts with a dot and by
      its lower-cased suffix otherwise, is deleted and cleaned up after, and
      counted. */
  method DeleteFilesByExtension(fs: FileSystem, target: Option<Path>, extensions: set<string>)
    returns (r: Result<(FileSystem, nat), Raised>)
    ensures target.None? ==> r == Success((fs, 0))
    ensures target.Some? ==>
      r == CountOf(DeleteEach(fs, Descendants(fs, target.value), target, FoldedNameOrSuffix, extensions))
  {
    if target.None? {
      return Success((fs, 0));
    }
    r := DeleteListed(fs, Descendants(fs, target.value), target, extensions);
  }

  /** The loop of `delete_files_by_extension` over the listing `paths`. */
  method DeleteListed(fs: FileSystem, paths: seq<Path>, top: Option<Path>, extensions: set<string>)
    returns (r: Result<(FileSystem, nat), Raised>)
    ensures r == CountOf(DeleteEach(fs, paths, top, FoldedNameOrSuffix, extensions))
  {
    var now := fs;
    var deleted := 0;
    ghost var unlinked: seq<Path> := [];
    for i := 0 to |paths|
      invariant DeleteEach(fs, paths[..i], top, FoldedNameOrSuffix, extensions) == Success((now, unlinked))
      invariant deleted == |unlinked|
    {
      var p := paths[i];
      assert paths[..i + 1][..i] == paths[..i];
      if !IsFile(now, p) {
        continue;
      }
      var selected := IsSelected(Name(p), extensions);
      if !selected {
        continue;
      }
      var step := DeleteAndCleanEmptyDirectories(now, p, top);
      if step.Failure? {
        FailureSticks(fs, paths, i + 1, top, FoldedNameOrSuffix, extensions);
        return Failure(step.error);
      }
      now := step.value;
      unlinked := unlinked + [p];
      deleted := deleted + 1;
    }
    assert paths[..|paths|] == paths;
    return Success((now, deleted));
  }

  /** `clean_directory`: the pass over the configured target. For a target
      that is a directory it never fails, and the count is the number of
      distinct files it unlinked. */
  method CleanDirectory(fs: FileSystem, config: Configuration.Config) returns (r: Result<(FileSystem, nat), Raised>, ghost unlinked: seq<Path>)
    requires WellFormed(fs)
    requires config.targetDirectory.Some? ==> IsDir(fs, config.targetDirectory.value)
    ensures config.targetDirectory.None? ==> r == Success((fs, 0)) && unlinked == []
    ensures config.targetDirectory.Some? ==>
      var top := config.targetDirectory.value;
      && r.Success? && WellFormed(r.value.0) && IsDir(r.value.0, top)
      && Shrunk(fs, r.value.0) && KeptOutside(fs, r.value.0, top)
    ensures config.targetDirectory.Some? ==>
      var top := config.targetDirectory.value;
      && r.Success? && r.value.1 == |unlinked|
      && PassFacts(fs, r.value.0, unlinked, Descendants(fs, top), top, FoldedNameOrSuffix, config.extensionsToDelete)
  {
    r := DeleteFilesByExtension(fs, config.targetDirectory, config.extensionsToDelete);
    unlinked := [];
    if config.targetDirectory.Some? {
      var top := config.targetDirectory.value;
      ghost var _, u := DeleteEachBelowTop(fs, Descendants(fs, top), top, FoldedNameOrSuffix, config.extensionsToDelete);
      unlinked := u;
    }
  }

  /** A `.DS_Store` file is selected by its lower-cased whole name. */
  lemma DsStoreSelected(extensions: set<string>)
    requires ".ds_store" in extensions
    ensures Selects(FoldedNameOrSuffix, ".DS_Store", extensions)
  {
    assert Lower(".DS_Store") == ".ds_store";
  }
}
