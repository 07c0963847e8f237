/** The walk-up and the deletion pass of the two earlier revisions
    (cleaner.py and sewing_file_cleaner.py), as values: what the filesystem
    becomes, or the exception that escapes. The loops that compute them are
    in `LegacyCleaner` and `SewingFileCleaner`; the two revisions differ in
    whether the walk has an upper bound and in how a name is matched. */
module EarlyWalk {
  import opened Wrappers
  import opened Names
  import opened FileSystem
  import opened World

  /** What escapes: a failed `assert` in `is_directory_empty`, or the
      `OSError` of an `unlink` or `rmdir`. */
  datatype Raised = AssertionFailed | OsFailure(message: string)

  /** `is_directory_empty`: its asserts demand an existing directory; it is
      empty when listing it finds nothing. */
  function IsDirectoryEmpty(fs: FileSystem, p: Path): (r: bool)
    requires IsDir(fs, p)
    ensures WellFormed(fs) ==> (r <==> !HasChild(fs, p))
  {
    var empty := Children(fs, p) == [];
    if WellFormed(fs) then ChildrenEmpty(fs, p); empty else empty
  }

  /** The `while` loop of the walk-up, from `current` on: stop at a non-empty
      directory or at `top`, remove an empty one and go to its parent. A
      `current` that is not a directory fails the assert. */
  function Climb(fs: FileSystem, current: Path, top: Option<Path>): Result<FileSystem, Raised>
    decreases |fs.nodes|
  {
    if !IsDir(fs, current) then Failure(AssertionFailed)
    else if !IsDirectoryEmpty(fs, current) then Success(fs)
    else if top == Some(current) then Success(fs)
    else match RmdirError(fs, current)
      case Some(e) => Failure(OsFailure(e))
      case None =>
        assert |fs.nodes - {current}| < |fs.nodes|;
        Climb(Remove(fs, current), Parent(current), top)
  }

  /** `delete_and_clean_empty_directories`: unlink the file, then walk up
      from its parent. */
  function DeleteAndClean(fs: FileSystem, file: Path, top: Option<Path>): Result<FileSystem, Raised> {
    match UnlinkError(fs, file)
    case Some(e) => Failure(OsFailure(e))
    case None => Climb(Remove(fs, file), Parent(file), top)
  }

  /** How a revision decides that a file name is one to delete. */
  datatype Rule =
    | FoldedNameOrSuffix  // cleaner.py: a dot-file by its whole lower-cased name, any other by its lower-cased suffix
    | ExactSuffix         // sewing_file_cleaner.py: by its suffix, exactly as spelled

  predicate Selects(rule: Rule, name: string, extensions: set<string>) {
    match rule
    case FoldedNameOrSuffix =>
      if |name| > 0 && name[0] == '.' then Lower(name) in extensions else Lower(Suffix(name)) in extensions
    case ExactSuffix => Suffix(name) in extensions
  }

  /** The `for` loop over the listing `paths`: skip what is not a file now or
      is not selected, delete and clean up after the rest. On success, the
      filesystem afterwards and the files unlinked, in order. */
  function DeleteEach(fs: FileSystem, paths: seq<Path>, top: Option<Path>, rule: Rule, extensions: set<string>)
    : Result<(FileSystem, seq<Path>), Raised>
    decreases |paths|
  {
    if paths == [] then Success((fs, []))
    else match DeleteEach(fs, paths[..|paths| - 1], top, rule, extensions)
      case Failure(e) => Failure(e)
      case Success((fs1, unlinked)) =>
        var p := paths[|paths| - 1];
        if !IsFile(fs1, p) || !Selects(rule, Name(p), extensions) then Success((fs1, unlinked))
        else match DeleteAndClean(fs1, p, top)
          case Failure(e) => Failure(e)
          case Success(fs2) => Success((fs2, unlinked + [p]))
  }

  /** The pass with the number of files unlinked in place of the list. */
  function CountOf(pass: Result<(FileSystem, seq<Path>), Raised>): Result<(FileSystem, nat), Raised> {
    match pass
    case Failure(e) => Failure(e)
    case Success((fs, unlinked)) => Success((fs, |unlinked|))
  }

  /** Once an exception escapes, the rest of the listing is not visited. */
  lemma {:induction false} FailureSticks(fs: FileSystem, paths: seq<Path>, i: nat, top: Option<Path>, rule: Rule, extensions: set<string>)
    requires i <= |paths| && DeleteEach(fs, paths[..i], top, rule, extensions).Failure?
    ensures DeleteEach(fs, paths, top, rule, extensions) == DeleteEach(fs, paths[..i], top, rule, extensions)
    decreases |paths| - i
  {
    if i == |paths| {
      assert paths[..i] == paths;
    } else {
      assert paths[..i + 1][..i] == paths[..i];
      FailureSticks(fs, paths, i + 1, top, rule, extensions);
    }
  }

  // ----- The walk-up -----

  /** From `fs` to `fs'` exactly the entries from `current` up to, but not
      including, `stop` disappeared. */
  predicate RemovedChain(fs: FileSystem, fs': FileSystem, stop: Path, current: Path) {
    && Shrunk(fs, fs')
    && AtOrBelow(stop, current)
    && (forall p :: p in fs.nodes && p !in fs'.nodes ==> IsDir(fs, p) && StrictlyBelow(stop, p) && AtOrBelow(p, current))
    && (forall p :: StrictlyBelow(stop, p) && AtOrBelow(p, current) ==> p !in fs'.nodes)
  }

  /** An ancestor-or-self of `current` shorter than it is an ancestor-or-self
      of its parent; one as long is `current` itself. */
  lemma AncestorStep(p: Path, current: Path)
    requires AtOrBelow(p, current)
    ensures |p| < |current| ==> AtOrBelow(p, Parent(current))
    ensures |p| == |current| ==> p == current
  {
    if |p| == |current| {
      assert current[..|current|] == current;
    }
  }

  /** Lying strictly below `stop`, which lies at or below `top`, is lying
      strictly below `top`. */
  lemma BelowTransitive(top: Path, stop: Path, q: Path)
    requires AtOrBelow(top, stop) && StrictlyBelow(stop, q)
    ensures StrictlyBelow(top, q)
  {
    assert q[..|top|] == q[..|stop|][..|top|];
  }

  /** Nothing was removed. */
  lemma RemovedNothing(fs: FileSystem, current: Path)
    ensures RemovedChain(fs, fs, current, current)
  {
    forall p | StrictlyBelow(current, p) && AtOrBelow(p, current)
      ensures false
    {
    }
  }

  /** One removal followed by a chain from the parent is a chain from
      `current`. */
  lemma RemovedStep(fs: FileSystem, fs1: FileSystem, fs': FileSystem, stop: Path, current: Path)
    requires current != [] && IsDir(fs, current) && fs1 == Remove(fs, current)
    requires RemovedChain(fs1, fs', stop, Parent(current))
    ensures RemovedChain(fs, fs', stop, current)
  {
    forall p | p in fs.nodes && p !in fs'.nodes
      ensures IsDir(fs, p) && StrictlyBelow(stop, p) && AtOrBelow(p, current)
    {
      if p != current {
        assert p in fs1.nodes;
      }
    }
    forall p | StrictlyBelow(stop, p) && AtOrBelow(p, current)
      ensures p !in fs'.nodes
    {
      AncestorStep(p, current);
    }
  }

  /** cleaner.py's walk-up, started in a directory at or below `top`, never
      fails; it removes exactly the directories from `current` up to the one
      where it stops, which is `top` or a directory that is not empty, so
      `top` and everything outside it survive. */
  lemma {:induction false} ClimbBelowTop(fs: FileSystem, current: Path, top: Path) returns (stop: Path)
    requires WellFormed(fs) && IsDir(fs, current) && AtOrBelow(top, current)
    ensures Climb(fs, current, Some(top)).Success?
    ensures var fs' := Climb(fs, current, Some(top)).value;
      && WellFormed(fs') && RemovedChain(fs, fs', stop, current)
      && AtOrBelow(top, stop) && IsDir(fs', stop) && (stop == top || HasChild(fs', stop))
    decreases |fs.nodes|
  {
    if HasChild(fs, current) || current == top {
      stop := current;
      RemovedNothing(fs, current);
    } else {
      assert StrictlyBelow(top, current);
      assert RmdirError(fs, current).None?;
      var fs1 := Remove(fs, current);
      RemoveChildless(fs, current);
      assert IsDir(fs, Parent(current));
      AncestorStep(top, current);
      assert |fs.nodes - {current}| < |fs.nodes|;
      stop := ClimbBelowTop(fs1, Parent(current), top);
      RemovedStep(fs, fs1, Climb(fs, current, Some(top)).value, stop, current);
    }
  }

  /** sewing_file_cleaner.py's walk-up has no bound: it fails only by
      running past the root, and otherwise removes exactly the empty
      directories from `current` up to the first that is not empty, so it
      removes `current` whenever `current` is empty. */
  lemma {:induction false} ClimbWithoutTop(fs: FileSystem, current: Path) returns (stop: Path)
    requires WellFormed(fs) && IsDir(fs, current)
    ensures Climb(fs, current, None).Failure? ==> Climb(fs, current, None).error == AssertionFailed
    ensures Climb(fs, current, None).Success? ==>
      var fs' := Climb(fs, current, None).value;
      && WellFormed(fs') && RemovedChain(fs, fs', stop, current)
      && IsDir(fs', stop) && HasChild(fs', stop)
      && (current in fs'.nodes <==> HasChild(fs, current))
    decreases |fs.nodes|
  {
    if HasChild(fs, current) {
      stop := current;
      RemovedNothing(fs, current);
    } else {
      assert RmdirError(fs, current).None?;
      var fs1 := Remove(fs, current);
      RemoveChildless(fs, current);
      assert |fs.nodes - {current}| < |fs.nodes|;
      if current == [] {
        assert Climb(fs, current, None) == Failure(AssertionFailed);
        stop := current;
      } else {
        assert IsDir(fs, Parent(current));
        stop := ClimbWithoutTop(fs1, Parent(current));
        if Climb(fs, current, None).Success? {
          RemovedStep(fs, fs1, Climb(fs, current, None).value, stop, current);
        }
      }
    }
  }

  // ----- The pass over the listing -----

  /** What a pass over `paths` leaves behind, whatever bounds its walk-up:
      the files of `paths` that were selected and existed at their turn are
      exactly `unlinked`, each once; besides them only directories
      disappeared. */
  predicate UnlinkFacts(fs: FileSystem, fs': FileSystem, unlinked: seq<Path>, paths: seq<Path>, rule: Rule, extensions: set<string>) {
    && WellFormed(fs') && Shrunk(fs, fs')
    && (forall p :: p in unlinked ==> p in paths && IsFile(fs, p) && Selects(rule, Name(p), extensions) && p !in fs'.nodes)
    && (forall p :: p in fs.nodes && p !in fs'.nodes && p !in unlinked ==> IsDir(fs, p))
    && (forall p :: p in paths && IsFile(fs, p) && Selects(rule, Name(p), extensions) ==> p in unlinked)
    && (forall i, j :: 0 <= i < j < |unlinked| ==> unlinked[i] != unlinked[j])
  }

  /** What cleaner.py's pass, bounded by `top`, leaves behind: the facts of
      any pass, and `top` with everything outside it survives. */
  predicate PassFacts(fs: FileSystem, fs': FileSystem, unlinked: seq<Path>, paths: seq<Path>, top: Path, rule: Rule, extensions: set<string>) {
    UnlinkFacts(fs, fs', unlinked, paths, rule, extensions) && KeptOutside(fs, fs', top) && IsDir(fs', top)
  }

  /** A listing entry the pass skips keeps the facts. */
  lemma SkipStep(fs: FileSystem, fs1: FileSystem, u1: seq<Path>, init: seq<Path>, p: Path, rule: Rule, extensions: set<string>)
    requires UnlinkFacts(fs, fs1, u1, init, rule, extensions)
    requires !IsFile(fs1, p) || !Selects(rule, Name(p), extensions)
    ensures UnlinkFacts(fs, fs1, u1, init + [p], rule, extensions)
  {
    forall q | q in init + [p] && IsFile(fs, q) && Selects(rule, Name(q), extensions)
      ensures q in u1
    {
      if q in fs1.nodes {
        assert IsFile(fs1, q);
      }
    }
  }

  /** A listing entry the pass unlinks, followed by a walk-up that removes
      only directories, keeps the facts. */
  lemma UnlinkStep(fs: FileSystem, fs1: FileSystem, fs': FileSystem, u1: seq<Path>, init: seq<Path>, p: Path, rule: Rule, extensions: set<string>)
    requires UnlinkFacts(fs, fs1, u1, init, rule, extensions)
    requires IsFile(fs1, p) && Selects(rule, Name(p), extensions)
    requires WellFormed(fs') && Shrunk(fs1, fs') && p !in fs'.nodes
    requires forall q :: q in fs1.nodes && q !in fs'.nodes && q != p ==> IsDir(fs1, q)
    ensures UnlinkFacts(fs, fs', u1 + [p], init + [p], rule, extensions)
  {
    var u := u1 + [p];
    assert p !in u1;
    forall q | q in fs.nodes && q !in fs'.nodes && q !in u
      ensures IsDir(fs, q)
    {
      if q in fs1.nodes {
        assert IsDir(fs1, q);
      }
    }
    forall q | q in u
      ensures q in init + [p] && IsFile(fs, q) && Selects(rule, Name(q), extensions) && q !in fs'.nodes
    {
      if q != p {
        assert q in u1;
      }
    }
    forall i, j | 0 <= i < j < |u|
      ensures u[i] != u[j]
    {
      if j < |u1| {
        assert u[i] == u1[i] && u[j] == u1[j];
      } else {
        assert u[i] in u1;
      }
    }
    forall q | q in init + [p] && IsFile(fs, q) && Selects(rule, Name(q), extensions)
      ensures q in u
    {
      if q != p {
        assert q in u1;
      }
    }
  }

  /** cleaner.py's `delete_and_clean_empty_directories` on a file strictly
      below `top` never fails; besides the file it removes only directories
      strictly below `top`. */
  lemma DeleteBelowTop(fs: FileSystem, p: Path, top: Path)
    requires WellFormed(fs) && IsFile(fs, p) && StrictlyBelow(top, p)
    ensures DeleteAndClean(fs, p, Some(top)).Success?
    ensures var fs' := DeleteAndClean(fs, p, Some(top)).value;
      && WellFormed(fs') && Shrunk(fs, fs') && p !in fs'.nodes
      && (forall q :: q in fs.nodes && q !in fs'.nodes && q != p ==> IsDir(fs, q) && StrictlyBelow(top, q))
  {
    assert IsDir(fs, Parent(p));
    FileHasNoChild(fs, p);
    var fs2 := Remove(fs, p);
    RemoveChildless(fs, p);
    AncestorStep(top, p);
    var stop := ClimbBelowTop(fs2, Parent(p), top);
    var fs' := Climb(fs2, Parent(p), Some(top)).value;
    forall q | q in fs.nodes && q !in fs'.nodes && q != p
      ensures IsDir(fs, q) && StrictlyBelow(top, q)
    {
      assert q in fs2.nodes;
      BelowTransitive(top, stop, q);
    }
  }

  /** A listing entry cleaner.py's pass deletes, and the walk-up after it,
      keep the facts, `top` and what lies outside it included. */
  lemma BoundedUnlinkStep(fs: FileSystem, fs1: FileSystem, u1: seq<Path>, init: seq<Path>, p: Path, top: Path, rule: Rule, extensions: set<string>)
    requires PassFacts(fs, fs1, u1, init, top, rule, extensions)
    requires IsFile(fs1, p) && Selects(rule, Name(p), extensions) && StrictlyBelow(top, p)
    ensures DeleteAndClean(fs1, p, Some(top)).Success?
    ensures PassFacts(fs, DeleteAndClean(fs1, p, Some(top)).value, u1 + [p], init + [p], top, rule, extensions)
  {
    DeleteBelowTop(fs1, p, top);
    var fs' := DeleteAndClean(fs1, p, Some(top)).value;
    UnlinkStep(fs, fs1, fs', u1, init, p, rule, extensions);
    forall q | q in fs.nodes && !StrictlyBelow(top, q)
      ensures q in fs'.nodes
    {
      assert q in fs1.nodes;
    }
  }

  /** cleaner.py's pass over a listing of entries strictly below `top`
      never fails, and leaves what `PassFacts` describes. */
  lemma {:induction false} DeleteEachBelowTop(fs: FileSystem, paths: seq<Path>, top: Path, rule: Rule, extensions: set<string>)
    returns (fs': FileSystem, unlinked: seq<Path>)
    requires WellFormed(fs) && IsDir(fs, top)
    requires forall p :: p in paths ==> StrictlyBelow(top, p)
    ensures DeleteEach(fs, paths, Some(top), rule, extensions) == Success((fs', unlinked))
    ensures PassFacts(fs, fs', unlinked, paths, top, rule, extensions)
    decreases |paths|
  {
    if paths == [] {
      fs', unlinked := fs, [];
      return;
    }
    var init := paths[..|paths| - 1];
    var p := paths[|paths| - 1];
    assert paths == init + [p];
    assert forall q :: q in init ==> q in paths;
    var fs1, u1 := DeleteEachBelowTop(fs, init, top, rule, extensions);
    if !IsFile(fs1, p) || !Selects(rule, Name(p), extensions) {
      SkipStep(fs, fs1, u1, init, p, rule, extensions);
      fs', unlinked := fs1, u1;
    } else {
      BoundedUnlinkStep(fs, fs1, u1, init, p, top, rule, extensions);
      fs', unlinked := DeleteAndClean(fs1, p, Some(top)).value, u1 + [p];
    }
  }

  /** sewing_file_cleaner.py's `delete_and_clean_empty_directories`, when
      it succeeds on a file, removes besides the file only directories. */
  lemma DeleteWithoutTop(fs: FileSystem, p: Path)
    requires WellFormed(fs) && IsFile(fs, p) && p != [] && DeleteAndClean(fs, p, None).Success?
    ensures var fs' := DeleteAndClean(fs, p, None).value;
      && WellFormed(fs') && Shrunk(fs, fs') && p !in fs'.nodes
      && (forall q :: q in fs.nodes && q !in fs'.nodes && q != p ==> IsDir(fs, q))
  {
    FileHasNoChild(fs, p);
    var fs2 := Remove(fs, p);
    RemoveChildless(fs, p);
    assert IsDir(fs, Parent(p));
    var _ := ClimbWithoutTop(fs2, Parent(p));
    var fs' := DeleteAndClean(fs, p, None).value;
    forall q | q in fs.nodes && q !in fs'.nodes && q != p
      ensures IsDir(fs, q)
    {
      assert q in fs2.nodes;
    }
  }

  /** sewing_file_cleaner.py's pass, whose walk-up has no bound, fails only
      by running past the root; otherwise the files it unlinked are exactly
      the listed files selected at their turn, and besides them only
      directories disappeared. */
  lemma {:induction false} DeleteEachWithoutTop(fs: FileSystem, paths: seq<Path>, rule: Rule, extensions: set<string>)
    requires WellFormed(fs)
    ensures var pass := DeleteEach(fs, paths, None, rule, extensions);
      pass.Failure? ==> pass.error == AssertionFailed
    ensures var pass := DeleteEach(fs, paths, None, rule, extensions);
      pass.Success? ==> UnlinkFacts(fs, pass.value.0, pass.value.1, paths, rule, extensions)
    decreases |paths|
  {
    if paths != [] {
      var init := paths[..|paths| - 1];
      var p := paths[|paths| - 1];
      assert paths == init + [p];
      DeleteEachWithoutTop(fs, init, rule, extensions);
      var prev := DeleteEach(fs, init, None, rule, extensions);
      if prev.Success? {
        var fs1 := prev.value.0;
        if !IsFile(fs1, p) || !Selects(rule, Name(p), extensions) {
          SkipStep(fs, fs1, prev.value.1, init, p, rule, extensions);
        } else if p != [] {
          FileHasNoChild(fs1, p);
          RemoveChildless(fs1, p);
          assert IsDir(fs1, Parent(p));
          var _ := ClimbWithoutTop(Remove(fs1, p), Parent(p));
          var step := DeleteAndClean(fs1, p, None);
          if step.Success? {
            DeleteWithoutTop(fs1, p);
            UnlinkStep(fs, fs1, step.value, prev.value.1, init, p, rule, extensions);
          }
        }
      }
    }
  }
}
