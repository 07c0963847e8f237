/** The abstract filesystem every revision of the cleaner works on.

    A path is the sequence of its name components; the root is the empty
    sequence. A filesystem maps each existing path to its kind, and carries
    the order in which the operating system enumerates entries; a listing
    (`iterdir`, `rglob`) is that order restricted to what exists. */
module FileSystem {
  import opened Wrappers

  type Path = seq<string>

  datatype Kind = File | Dir

  datatype FileSystem = FileSystem(nodes: map<Path, Kind>, order: seq<Path>)

  /** `Path.parent`: the root is its own parent. */
  function Parent(p: Path): Path {
    if p == [] then p else p[..|p| - 1]
  }

  /** `Path.name`: the last component, empty for the root. */
  function Name(p: Path): string {
    if p == [] then "" else p[|p| - 1]
  }

  /** `top in p.parents`: `top` is a proper ancestor of `p`. */
  predicate StrictlyBelow(top: Path, p: Path) {
    |top| < |p| && p[..|top|] == top
  }

  /** `p` is `top` or lies underneath it. */
  predicate AtOrBelow(top: Path, p: Path) {
    |top| <= |p| && p[..|top|] == top
  }

  predicate IsFile(fs: FileSystem, p: Path) {
    p in fs.nodes && fs.nodes[p] == File
  }

  predicate IsDir(fs: FileSystem, p: Path) {
    p in fs.nodes && fs.nodes[p] == Dir
  }

  /** Some existing entry has `d` as its parent. */
  predicate HasChild(fs: FileSystem, d: Path) {
    exists c :: c in fs.nodes && c != [] && Parent(c) == d
  }

  /** The entries of `s` that exist in `nodes` and sit directly in `d`, in order. */
  function ChildrenIn(s: seq<Path>, nodes: map<Path, Kind>, d: Path): (r: seq<Path>)
    ensures forall p {:trigger p in r} :: p in r <==> p in s && p in nodes && p != [] && Parent(p) == d
    ensures |r| <= |s|
  {
    if s == [] then []
    else
      var rest := ChildrenIn(s[1..], nodes, d);
      if s[0] in nodes && s[0] != [] && Parent(s[0]) == d then [s[0]] + rest else rest
  }

  /** `list(d.iterdir())`. */
  function Children(fs: FileSystem, d: Path): seq<Path> {
    ChildrenIn(fs.order, fs.nodes, d)
  }

  /** The entries of `s` that exist in `nodes` and lie strictly below `top`, in order. */
  function BelowIn(s: seq<Path>, nodes: map<Path, Kind>, top: Path): (r: seq<Path>)
    ensures forall p {:trigger p in r} :: p in r <==> p in s && p in nodes && StrictlyBelow(top, p)
    ensures |r| <= |s|
  {
    if s == [] then []
    else
      var rest := BelowIn(s[1..], nodes, top);
      if s[0] in nodes && StrictlyBelow(top, s[0]) then [s[0]] + rest else rest
  }

  /** `list(top.rglob("*"))`: every entry strictly below `top`. */
  function Descendants(fs: FileSystem, top: Path): seq<Path> {
    BelowIn(fs.order, fs.nodes, top)
  }

  /** `p` lies below a directory of `hidden` that is `top` or lies below
      `top`. */
  predicate Shadowed(hidden: set<Path>, top: Path, p: Path) {
    exists i :: |top| <= i < |p| && p[..i] in hidden
  }

  /** The entries of `s` that exist in `nodes` and lie strictly below `top`
      but not below a directory of `hidden`, in order. */
  function VisibleBelowIn(s: seq<Path>, nodes: map<Path, Kind>, top: Path, hidden: set<Path>): (r: seq<Path>)
    ensures forall p {:trigger p in r} :: p in r <==> p in s && p in nodes && StrictlyBelow(top, p) && !Shadowed(hidden, top, p)
    ensures |r| <= |s|
  {
    if s == [] then []
    else
      var rest := VisibleBelowIn(s[1..], nodes, top, hidden);
      if s[0] in nodes && StrictlyBelow(top, s[0]) && !Shadowed(hidden, top, s[0]) then [s[0]] + rest else rest
  }

  /** `list(top.rglob("*"))` when listing the directories of `hidden` raises
      `PermissionError`: pathlib's walk swallows that error, so a hidden
      directory is listed but nothing below it is, and nothing at all when
      `top` itself is hidden. */
  function Scan(fs: FileSystem, hidden: set<Path>, top: Path): seq<Path> {
    VisibleBelowIn(fs.order, fs.nodes, top, hidden)
  }

  /** `[p.name for p in ps]`. */
  function EntryNames(ps: seq<Path>): (r: seq<string>)
    ensures |r| == |ps|
    ensures forall i :: 0 <= i < |ps| ==> r[i] == Name(ps[i])
  {
    if ps == [] then [] else [Name(ps[0])] + EntryNames(ps[1..])
  }

  /** Every entry is enumerable and every non-root entry sits in an existing
      directory. */
  predicate WellFormed(fs: FileSystem) {
    && (forall p :: p in fs.nodes ==> p in fs.order)
    && (forall p {:trigger IsDir(fs, Parent(p))} :: p in fs.nodes && p != [] ==> IsDir(fs, Parent(p)))
  }

  /** Deletes one entry. */
  function Remove(fs: FileSystem, p: Path): FileSystem {
    fs.(nodes := fs.nodes - {p})
  }

  const NO_SUCH_FILE := "No such file or directory"
  const IS_A_DIRECTORY := "Is a directory"
  const NOT_A_DIRECTORY := "Not a directory"
  const DIRECTORY_NOT_EMPTY := "Directory not empty"

  /** The error `p.unlink()` raises on `fs`, or `None` when it would succeed. */
  function UnlinkError(fs: FileSystem, p: Path): (r: Option<string>)
    ensures r.None? <==> IsFile(fs, p)
  {
    if p !in fs.nodes then Some(NO_SUCH_FILE)
    else if fs.nodes[p] == Dir then Some(IS_A_DIRECTORY)
    else None
  }

  /** The error `p.rmdir()` raises on `fs`, or `None` when it would succeed. */
  function RmdirError(fs: FileSystem, p: Path): (r: Option<string>)
    ensures r.None? <==> IsDir(fs, p) && !HasChild(fs, p)
  {
    if p !in fs.nodes then Some(NO_SUCH_FILE)
    else if fs.nodes[p] == File then Some(NOT_A_DIRECTORY)
    else if HasChild(fs, p) then Some(DIRECTORY_NOT_EMPTY)
    else None
  }

  /** In a well-formed filesystem a file has no entries under it. */
  lemma FileHasNoChild(fs: FileSystem, p: Path)
    requires WellFormed(fs) && IsFile(fs, p)
    ensures !HasChild(fs, p)
  {
    forall c | c in fs.nodes && c != []
      ensures Parent(c) != p
    {
      assert IsDir(fs, Parent(c));
    }
  }

  /** In a well-formed filesystem, listing a directory finds nothing exactly
      when no entry sits in it. */
  lemma ChildrenEmpty(fs: FileSystem, d: Path)
    requires WellFormed(fs)
    ensures Children(fs, d) == [] <==> !HasChild(fs, d)
  {
    var r := Children(fs, d);
    if r != [] {
      assert r[0] in r;
    }
    if HasChild(fs, d) {
      var c :| c in fs.nodes && c != [] && Parent(c) == d;
      assert c in r;
    }
  }

  /** Deleting an entry with nothing under it keeps the filesystem well formed. */
  lemma RemoveChildless(fs: FileSystem, p: Path)
    requires WellFormed(fs) && !HasChild(fs, p)
    ensures WellFormed(Remove(fs, p))
  {
    var fs' := Remove(fs, p);
    forall q | q in fs'.nodes && q != []
      ensures IsDir(fs', Parent(q))
    {
      assert q in fs.nodes && IsDir(fs, Parent(q));
    }
  }

  /** In a well-formed filesystem, an entry strictly below `d` is either a
      child of `d` or lies under a child of `d` that is a directory. */
  lemma {:induction false} UnderChild(fs: FileSystem, d: Path, q: Path)
    requires WellFormed(fs) && q in fs.nodes && StrictlyBelow(d, q)
    ensures q[..|d| + 1] in Children(fs, d)
    ensures |q| > |d| + 1 ==> IsDir(fs, q[..|d| + 1])
    decreases |q|
  {
    var c := q[..|d| + 1];
    if |q| == |d| + 1 {
      assert c == q;
    } else {
      var up := Parent(q);
      assert IsDir(fs, up);
      assert up[..|d|] == d;
      assert up[..|d| + 1] == c;
      UnderChild(fs, d, up);
    }
  }

  /** A path component that `Path(...)` would keep as it is. */
  predicate PlainComponent(c: string) {
    c != "" && '/' !in c
  }

  /** The components joined, each preceded by a separator. */
  function Slashed(p: Path): string {
    if p == [] then "" else "/" + p[0] + Slashed(p[1..])
  }

  /** `str(p)` for an absolute path. */
  function PathString(p: Path): string {
    if p == [] then "/" else Slashed(p)
  }

  /** Length of the leading run of non-separator characters. */
  function ComponentLength(s: string): (n: nat)
    ensures n <= |s|
    ensures forall i :: 0 <= i < n ==> s[i] != '/'
    ensures n < |s| ==> s[n] == '/'
  {
    if s == [] || s[0] == '/' then 0 else 1 + ComponentLength(s[1..])
  }

  /** `Path(s).parts` without the anchor: `s` split at separators, empty
      pieces dropped. */
  function Components(s: string): Path
    decreases |s|
  {
    if s == [] then []
    else if s[0] == '/' then Components(s[1..])
    else
      var n := ComponentLength(s);
      [s[..n]] + Components(s[n..])
  }

  lemma {:induction false} ComponentLengthOfPrefix(c: string, t: string)
    requires PlainComponent(c) && (t == [] || t[0] == '/')
    ensures ComponentLength(c + t) == |c|
    decreases |c|
  {
    assert (c + t)[0] == c[0];
    assert (c + t)[1..] == c[1..] + t;
    if |c| > 1 {
      assert c[1..][0] == c[1];
      ComponentLengthOfPrefix(c[1..], t);
    }
  }

  /** Parsing a rendered path gives the path back. */
  lemma {:induction false} ComponentsOfPathString(p: Path)
    requires forall i :: 0 <= i < |p| ==> PlainComponent(p[i])
    ensures Components(PathString(p)) == p
    decreases |p|
  {
    if p == [] {
      assert Components("/") == Components("");
    } else {
      var rest := Slashed(p[1..]);
      var s := "/" + p[0] + rest;
      assert s == Slashed(p);
      assert s[1..] == p[0] + rest;
      assert rest == [] || rest[0] == '/';
      ComponentLengthOfPrefix(p[0], rest);
      assert (p[0] + rest)[..|p[0]|] == p[0];
      assert (p[0] + rest)[|p[0]|..] == rest;
      ComponentsOfPathString(p[1..]);
      if p[1..] == [] {
        assert Components(rest) == [];
      } else {
        assert rest == PathString(p[1..]);
      }
      assert p == [p[0]] + p[1..];
    }
  }
}
