/** The part of the filesystem the upload server touches: a set of
    directories and a map from file paths to their bytes. A path is the
    sequence of its segments below the filesystem root; `[]` is the root. */
module FileStore {
  import opened Optional

  type Path = seq<string>
  type Bytes = seq<bv8>

  datatype Store = Store(dirs: set<Path>, files: map<Path, Bytes>)

  function Parent(p: Path): Path
    requires |p| > 0
  {
    p[..|p| - 1]
  }

  predicate IsDir(s: Store, p: Path) {
    p == [] || p in s.dirs
  }

  /** What `fs.access` reports: some entry, directory or file, is at `p`. */
  predicate Exists(s: Store, p: Path) {
    IsDir(s, p) || p in s.files
  }

  /** Every entry hangs under a directory, and no path is both a file and a directory. */
  ghost predicate Valid(s: Store) {
    && (forall p :: p in s.dirs ==> |p| > 0 && IsDir(s, Parent(p)))
    && (forall p :: p in s.files ==> |p| > 0 && IsDir(s, Parent(p)) && p !in s.dirs)
  }

  predicate IsChildOf(q: Path, p: Path) {
    |q| == |p| + 1 && q[..|p|] == p
  }

  /** The names of the entries directly inside `base`. */
  function Children(s: Store, base: Path): set<string> {
    (set q | q in s.dirs && IsChildOf(q, base) :: q[|base|])
    + (set q | q in s.files && IsChildOf(q, base) :: q[|base|])
  }

  lemma ChildrenExist(s: Store, base: Path, n: string)
    ensures n in Children(s, base) <==> Exists(s, base + [n])
  {
    var p := base + [n];
    assert IsChildOf(p, base) && p[|base|] == n by {
      assert p[..|base|] == base;
    }
    forall q | IsChildOf(q, base) && q[|base|] == n
      ensures q == p
    {
      assert q == q[..|base|] + [q[|base|]];
    }
  }

  /** `p` and each of its ancestors below the filesystem root. */
  function Ancestry(p: Path): set<Path> {
    set i | 0 < i <= |p| :: p[..i]
  }

  lemma InOwnAncestry(p: Path)
    requires |p| > 0
    ensures p in Ancestry(p)
  {
    assert p[..|p|] == p;
  }

  /** `p` or one of its ancestors is a file. */
  predicate BlockedByFile(s: Store, p: Path) {
    exists i :: 0 < i <= |p| && p[..i] in s.files
  }

  /** `fs.mkdir(p, {recursive: true})`: creates `p` and every missing
      ancestor; fails when `p` or an ancestor is a file; an existing
      directory is not an error. */
  function MakeDirectory(s: Store, p: Path): Option<Store> {
    if BlockedByFile(s, p) then None else Some(s.(dirs := s.dirs + Ancestry(p)))
  }

  /** `fs.writeFile(p, data)`: creates or replaces the file; fails when the
      parent is not a directory or `p` is one. */
  function WriteFile(s: Store, p: Path, data: Bytes): Option<Store> {
    if |p| == 0 || !IsDir(s, Parent(p)) || p in s.dirs then None
    else Some(s.(files := s.files[p := data]))
  }

  lemma {:induction false} AncestorsAreDirs(s: Store, p: Path)
    requires Valid(s) && IsDir(s, p)
    ensures forall i :: 0 < i <= |p| ==> p[..i] in s.dirs
    decreases |p|
  {
    if |p| > 0 {
      AncestorsAreDirs(s, Parent(p));
      forall i | 0 < i <= |p|
        ensures p[..i] in s.dirs
      {
        if i < |p| {
          assert p[..i] == Parent(p)[..i];
        } else {
          assert p[..i] == p;
        }
      }
    }
  }

  /** A successful `mkdir -p` leaves a directory at `p`, keeps every file,
      removes nothing, and keeps the store well formed. */
  lemma MakeDirectoryValid(s: Store, p: Path)
    requires Valid(s) && MakeDirectory(s, p).Some?
    ensures var s' := MakeDirectory(s, p).value;
      && Valid(s')
      && IsDir(s', p)
      && s'.files == s.files
      && s.dirs <= s'.dirs
  {
    var s' := MakeDirectory(s, p).value;
    if |p| > 0 {
      InOwnAncestry(p);
    }
    forall q | q in Ancestry(p)
      ensures |q| > 0 && IsDir(s', Parent(q)) && q !in s.files
    {
      var i :| 0 < i <= |p| && q == p[..i];
      if i > 1 {
        assert Parent(q) == p[..i - 1];
      }
    }
  }

  /** `mkdir -p` of an absent path whose parent is a directory adds exactly that one directory. */
  lemma MakeDirectoryUnderDir(s: Store, p: Path)
    requires Valid(s) && |p| > 0 && IsDir(s, Parent(p)) && !Exists(s, p)
    ensures MakeDirectory(s, p) == Some(s.(dirs := s.dirs + {p}))
  {
    AncestorsAreDirs(s, Parent(p));
    forall q | q in Ancestry(p)
      ensures q !in s.files && q in s.dirs + {p}
    {
      var i :| 0 < i <= |p| && q == p[..i];
      if i < |p| {
        assert p[..i] == Parent(p)[..i];
      } else {
        assert p[..i] == p;
      }
    }
    InOwnAncestry(p);
    assert s.dirs + Ancestry(p) == s.dirs + {p};
  }

  /** `mkdir -p` of an existing directory succeeds and changes nothing. */
  lemma MakeDirectoryOnDir(s: Store, p: Path)
    requires Valid(s) && IsDir(s, p)
    ensures MakeDirectory(s, p) == Some(s)
  {
    AncestorsAreDirs(s, p);
    forall q | q in Ancestry(p)
      ensures q in s.dirs && q !in s.files
    {
    }
    assert s.dirs + Ancestry(p) == s.dirs;
  }

  /** A successful write keeps the store well formed and changes only the written file. */
  lemma WriteFileValid(s: Store, p: Path, data: Bytes)
    requires Valid(s) && WriteFile(s, p, data).Some?
    ensures var s' := WriteFile(s, p, data).value;
      && Valid(s')
      && s'.dirs == s.dirs
      && p in s'.files && s'.files[p] == data
      && (forall q :: q != p ==> (q in s'.files <==> q in s.files))
      && (forall q :: q in s.files && q != p ==> s'.files[q] == s.files[q])
  {
  }
}
