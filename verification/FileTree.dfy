/**
 The filesystem as a value: a flat map from normalized paths to entries in which every directory also
 lists the names below it. The functions say what each call leaves behind, including the calls that
 insert an entry before they check its parent.
 */
module FileTree {
  import opened Wrappers
  import opened Utf8
  import opened Paths

  datatype Entry = Directory(children: set<string>) | File(data: seq<byte>)

  type Entries = map<string, Entry>

  datatype Code = ENOENT | ENOTDIR | EISDIR | ENOTEMPTY

  datatype FileSystemError = FileSystemError(code: Code, path: string)

  /** The entries a call leaves behind, and the error it throws, if any. */
  datatype Outcome = Outcome(entries: Entries, error: Option<FileSystemError>)

  function Done(es: Entries): Outcome {
    Outcome(es, None)
  }

  function Failed(es: Entries, code: Code, path: string): Outcome {
    Outcome(es, Some(FileSystemError(code, path)))
  }

  /** A new filesystem: an empty root. */
  function Fresh(): Entries {
    map["/" := Directory({})]
  }

  function RequireEntry(es: Entries, path: string): Result<Entry, FileSystemError> {
    if Normal(path) in es then Ok(es[Normal(path)]) else Err(FileSystemError(ENOENT, path))
  }

  /** The names a directory lists. */
  function RequireDirectory(es: Entries, path: string): Result<set<string>, FileSystemError> {
    match RequireEntry(es, path)
    case Err(e) => Err(e)
    case Ok(File(_)) => Err(FileSystemError(ENOTDIR, path))
    case Ok(Directory(children)) => Ok(children)
  }

  /** Lists a path in its parent, which must be a directory by then. */
  function Listed(es: Entries, target: string): Outcome {
    match RequireDirectory(es, Parent(target))
    case Err(e) => Outcome(es, Some(e))
    case Ok(children) => Done(es[Parent(target) := Directory(children + {Basename(target)})])
  }

  /** Takes a path off the list of its parent. */
  function Unlisted(es: Entries, target: string): Outcome {
    match RequireDirectory(es, Parent(target))
    case Err(e) => Outcome(es, Some(e))
    case Ok(children) => Done(es[Parent(target) := Directory(children - {Basename(target)})])
  }

  function Mkdir(es: Entries, path: string, recursive: bool): Outcome
    decreases |Parts(path)|
  {
    var target := Normal(path);
    if target == "/" then Done(es)
    else
      var parent := Parent(target);
      if parent !in es && !recursive then Failed(es, ENOENT, parent)
      else
        NormalIdempotent(path);
        SplitsIntoParentAndBase(target);
        var above := if parent in es then Done(es) else Mkdir(es, parent, true);
        if above.error.Some? || target in above.entries then above
        else Listed(above.entries[target := Directory({})], target)
  }

  function WriteFile(es: Entries, path: string, data: seq<byte>): Outcome {
    var target := Normal(path);
    var above := Mkdir(es, Parent(target), true);
    if above.error.Some? then above
    else Listed(above.entries[target := File(data)], target)
  }

  function ReadFile(es: Entries, path: string): Result<seq<byte>, FileSystemError> {
    match RequireEntry(es, path)
    case Err(e) => Err(e)
    case Ok(Directory(_)) => Err(FileSystemError(EISDIR, path))
    case Ok(File(data)) => Ok(data)
  }

  function Unlink(es: Entries, path: string): Outcome {
    var target := Normal(path);
    match RequireEntry(es, target)
    case Err(e) => Outcome(es, Some(e))
    case Ok(Directory(_)) => Failed(es, EISDIR, path)
    case Ok(File(_)) => Unlisted(es - {target}, target)
  }

  function Rmdir(es: Entries, path: string): Outcome {
    var target := Normal(path);
    match RequireDirectory(es, target)
    case Err(e) => Outcome(es, Some(e))
    case Ok(children) =>
      if children != {} then Failed(es, ENOTEMPTY, path) else Unlisted(es - {target}, target)
  }

  // ----- The invariant -----

  /** A path is the root, or its parent is a directory that lists it. */
  predicate Attached(es: Entries, path: string) {
    Canonical(path) &&
    if path == "/" then true
    else Parent(path) in es && es[Parent(path)].Directory? && Basename(path) in es[Parent(path)].children
  }

  /** A directory lists only names of entries that exist. */
  ghost predicate ListsEntries(es: Entries, path: string, entry: Entry) {
    entry.Directory? ==> forall name :: name in entry.children ==> IsName(name) && Child(path, name) in es
  }

  ghost predicate WellFormed(es: Entries) {
    && "/" in es && es["/"].Directory?
    && (forall path :: path in es ==> Attached(es, path))
    && (forall path :: path in es ==> ListsEntries(es, path, es[path]))
  }

  /** The closest existing entry at or above a path, or the root. */
  function Nearest(es: Entries, path: string): (near: string)
    decreases |Parts(path)|
  {
    if Normal(path) in es || Normal(path) == "/" then Normal(path)
    else
      SplitsIntoParentAndBase(path);
      Nearest(es, Parent(path))
  }

  /** The names of the entries whose parent is a directory. */
  function NamesBelow(es: Entries, directory: string): set<string> {
    set path | path in es && path != "/" && Parent(path) == directory :: Basename(path)
  }

  /** In a well-formed tree each directory's list is an index of the paths below it. */
  lemma ChildrenAreNames(es: Entries, directory: string)
    requires WellFormed(es) && directory in es && es[directory].Directory?
    ensures es[directory].children == NamesBelow(es, directory)
  {
    assert Attached(es, directory) && ListsEntries(es, directory, es[directory]);
    forall name
      ensures name in es[directory].children <==> name in NamesBelow(es, directory)
    {
      if name in es[directory].children {
        ChildIs(directory, name);
        assert Child(directory, name) in es;
      }
      if name in NamesBelow(es, directory) {
        var path :| path in es && path != "/" && Parent(path) == directory && Basename(path) == name;
        assert Attached(es, path);
      }
    }
  }
}
