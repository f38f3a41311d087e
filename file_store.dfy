/**
 * The uploads directory as the handler sees it: a set of directory paths and
 * a map from file paths to their bytes. Paths are strings relative to the
 * uploads root; a directory is named by the folder path a client sent, a file
 * by `folder + "/" + name`. The operations are the three `fs` calls the
 * handler makes: `existsSync`, `mkdirSync(…, { recursive: true })` and
 * `writeFileSync`, with the failures the filesystem itself would raise.
 */
module FileStore {
  import opened Wrappers
  import opened NodePath

  type Path = string
  type Bytes = seq<bv8>

  datatype Store = Store(dirs: set<Path>, files: map<Path, Bytes>)

  /** The errors the `fs` calls raise, each with the path it names. */
  datatype FsError =
    | AlreadyExists(path: Path)   // mkdir over an existing file
    | NotADirectory(path: Path)   // mkdir below an existing file
    | IsADirectory(path: Path)    // write over an existing directory
    | NoSuchDirectory(path: Path) // write into a missing directory
  {
    /** The `message` property Node puts on the thrown error. */
    function Message(): (m: string)
      ensures |m| > |path| + 9 && m[|m| - |path| - 9..] == "uploads/" + path + "'"
    {
      var quoted := "uploads/" + path + "'";
      assert (Description() + " '" + quoted)[|Description()| + 2..] == quoted;
      Description() + " '" + quoted
    }

    /** The error code, its description and the failing system call. */
    function Description(): string {
      match this
      case AlreadyExists(_) => "EEXIST: file already exists, mkdir"
      case NotADirectory(_) => "ENOTDIR: not a directory, mkdir"
      case IsADirectory(_) => "EISDIR: illegal operation on a directory, open"
      case NoSuchDirectory(_) => "ENOENT: no such file or directory, open"
    }
  }

  /** The file path `path.join(folder, name)`. */
  function FilePath(folder: Path, name: FileName): Path {
    folder + "/" + name
  }

  /** Every proper directory prefix of `dir`: what `mkdir -p` creates on the way. */
  function Ancestors(dir: Path): (a: set<Path>)
    ensures forall p :: p in a ==> |p| < |dir|
  {
    set i | 0 < i < |dir| && dir[i] == '/' :: dir[..i]
  }

  /** An ancestor of an ancestor is an ancestor. */
  lemma AncestorsTransitive(dir: Path, a: Path)
    requires a in Ancestors(dir)
    ensures Ancestors(a) <= Ancestors(dir)
  {
    var i :| 0 < i < |dir| && dir[i] == '/' && a == dir[..i];
    forall b | b in Ancestors(a) ensures b in Ancestors(dir) {
      var j :| 0 < j < |a| && a[j] == '/' && b == a[..j];
      assert dir[j] == '/' && b == dir[..j];
    }
  }

  /** `fs.existsSync(p)`: true for files and directories alike. */
  predicate Exists(s: Store, p: Path): (e: bool)
    ensures e <==> p in s.dirs + s.files.Keys
  {
    p in s.dirs || p in s.files
  }

  /**
   * The shape of the uploads tree: nothing is both a file and a directory,
   * every directory's ancestors are directories and every file sits in one.
   */
  ghost predicate Valid(s: Store) {
    && s.dirs !! s.files.Keys
    && (forall d :: d in s.dirs ==> Ancestors(d) <= s.dirs)
    && (forall p :: p in s.files ==> Parent(p) in s.dirs)
  }

  /**
   * `fs.mkdirSync(dir, { recursive: true })`: creates `dir` and every missing
   * ancestor; fails when a file stands at `dir` or at one of its ancestors.
   */
  function Mkdir(s: Store, dir: Path): (r: Result<Store, FsError>)
    ensures r.Ok? ==> dir in r.value.dirs && s.dirs <= r.value.dirs && r.value.files == s.files
    ensures r.Err? ==> r.error.path == dir && (dir in s.files || !(Ancestors(dir) !! s.files.Keys))
  {
    if dir in s.files then Err(AlreadyExists(dir))
    else if !(Ancestors(dir) !! s.files.Keys) then Err(NotADirectory(dir))
    else Ok(s.(dirs := s.dirs + {dir} + Ancestors(dir)))
  }

  /**
   * `fs.writeFileSync(p, data)`: creates or replaces the file at `p`; fails
   * when `p` is a directory or its parent directory does not exist.
   */
  function WriteFile(s: Store, p: Path, data: Bytes): (r: Result<Store, FsError>)
    ensures r.Ok? ==> p in r.value.files && r.value.files[p] == data && r.value.dirs == s.dirs
    ensures r.Err? ==> r.error.path == p && (p in s.dirs || Parent(p) !in s.dirs)
  {
    if p in s.dirs then Err(IsADirectory(p))
    else if Parent(p) !in s.dirs then Err(NoSuchDirectory(p))
    else Ok(s.(files := s.files[p := data]))
  }

  /**
   * After a successful mkdir the directories are exactly the old ones plus
   * the directory and its ancestors, no file changed and the tree keeps its
   * shape; it fails exactly when a file is in the way.
   */
  lemma MkdirSpec(s: Store, dir: Path)
    requires Valid(s)
    ensures Mkdir(s, dir).Err? <==> dir in s.files || !(Ancestors(dir) !! s.files.Keys)
    ensures Mkdir(s, dir).Ok? ==>
      var t := Mkdir(s, dir).value;
      && t.dirs == s.dirs + {dir} + Ancestors(dir)
      && t.files == s.files
      && Valid(t)
  {
    if Mkdir(s, dir).Ok? {
      var t := Mkdir(s, dir).value;
      forall d | d in t.dirs ensures Ancestors(d) <= t.dirs {
        if d in Ancestors(dir) { AncestorsTransitive(dir, d); }
      }
    }
  }

  /** Creating a directory that already exists succeeds and changes nothing. */
  lemma MkdirIdempotent(s: Store, dir: Path)
    requires Valid(s) && dir in s.dirs
    ensures Mkdir(s, dir) == Ok(s)
  {
    assert Ancestors(dir) <= s.dirs;
    assert s.dirs + {dir} + Ancestors(dir) == s.dirs;
  }

  /**
   * A successful write stores exactly `data` at `p`, leaves every other file
   * and every directory as it was, and keeps the tree's shape.
   */
  lemma WriteFileSpec(s: Store, p: Path, data: Bytes)
    requires Valid(s)
    ensures WriteFile(s, p, data).Err? <==> p in s.dirs || Parent(p) !in s.dirs
    ensures WriteFile(s, p, data).Ok? ==>
      var t := WriteFile(s, p, data).value;
      && t.files.Keys == s.files.Keys + {p}
      && t.files[p] == data
      && (forall q :: q in s.files && q != p ==> t.files[q] == s.files[q])
      && t.dirs == s.dirs
      && Valid(t)
  {
  }
}
