/** Archives: the files of a tree as a list, and the tree built by writing a list of files. */
module Archives {
  import opened Utf8
  import opened Paths
  import opened FileTree
  import opened FileTreeCalls
  import opened FileTreeRuns

  /** A file in an archive; its bytes stand for their base64 text. */
  datatype ArchivedFile = ArchivedFile(path: string, data: seq<byte>)

  /** Writes the files in order and stops at the first error. */
  function Import(es: Entries, files: seq<ArchivedFile>): Outcome
    decreases |files|
  {
    if files == [] then Done(es)
    else
      var first := WriteFile(es, files[0].path, files[0].data);
      if first.error.Some? then first else Import(first.entries, files[1..])
  }

  function PathsOf(files: seq<ArchivedFile>): (paths: seq<string>)
    ensures |paths| == |files| && forall i :: 0 <= i < |files| ==> paths[i] == files[i].path
  {
    seq(|files|, i requires 0 <= i < |files| => files[i].path)
  }

  function PathSet(files: seq<ArchivedFile>): set<string> {
    if files == [] then {} else {files[0].path} + PathSet(files[1..])
  }

  lemma {:induction false} PathSetIs(files: seq<ArchivedFile>, path: string)
    ensures path in PathSet(files) <==> path in PathsOf(files)
  {
    if files != [] {
      PathSetIs(files[1..], path);
      assert PathsOf(files) == [files[0].path] + PathsOf(files[1..]);
    }
  }

  predicate Holds(contents: map<string, seq<byte>>, file: ArchivedFile) {
    file.path in contents && contents[file.path] == file.data
  }

  /** The files of a tree, each once or more, in any order. */
  ghost predicate IsArchive(files: seq<ArchivedFile>, contents: map<string, seq<byte>>) {
    && (forall i :: 0 <= i < |files| ==> Holds(contents, files[i]))
    && (forall path :: path in contents ==> path in PathsOf(files))
  }

  /** The files of a tree, each once, sorted by path. */
  ghost predicate IsExport(files: seq<ArchivedFile>, contents: map<string, seq<byte>>) {
    && IsListing(PathsOf(files), contents.Keys)
    && (forall i :: 0 <= i < |files| ==> Holds(contents, files[i]))
  }

  /** The directories above the files of a list. */
  function Above(files: seq<ArchivedFile>): set<string> {
    if files == [] then {} else Ancestry(Parent(files[0].path)) + Above(files[1..])
  }

  /** A tree has only one export. */
  lemma ExportUnique(files: seq<ArchivedFile>, files': seq<ArchivedFile>, contents: map<string, seq<byte>>)
    requires IsExport(files, contents) && IsExport(files', contents)
    ensures files == files'
  {
    ListingUnique(PathsOf(files), PathsOf(files'), contents.Keys);
    forall i | 0 <= i < |files|
      ensures files[i] == files'[i]
    {
      assert Holds(contents, files[i]) && Holds(contents, files'[i]);
      assert PathsOf(files)[i] == PathsOf(files')[i];
    }
  }

  /** A tree whose files and directories are all in another one. */
  ghost predicate Within(es: Entries, source: Entries) {
    && (forall path :: path in FilesOf(es) ==> path in FilesOf(source) && FilesOf(source)[path] == FilesOf(es)[path])
    && DirectoriesOf(es) <= DirectoriesOf(source)
  }

  /** A file of the source can be written into any part of the source. */
  lemma WriteWithin(source: Entries, es: Entries, file: ArchivedFile)
    requires WellFormed(source) && WellFormed(es) && Within(es, source) && Holds(FilesOf(source), file)
    ensures var o := WriteFile(es, file.path, file.data);
            && o.error.None? && WellFormed(o.entries) && Within(o.entries, source)
            && FilesOf(o.entries) == FilesOf(es)[file.path := file.data]
            && DirectoriesOf(o.entries) == DirectoriesOf(es) + Ancestry(Parent(file.path))
  {
    hide Parent, Basename, Child, Normal, WriteFile;
    var path := file.path;
    assert Attached(source, path);
    AboveAreDirectories(source, Parent(path));
    NearestExists(es, Parent(path));
    var near := Nearest(es, Parent(path));
    assert near in DirectoriesOf(source) && near !in FilesOf(source);
    assert InTree(es, near);
    assert path !in DirectoriesOf(source);
    WriteFileExactly(es, path, file.data);
  }

  lemma {:induction false} ImportWithin(source: Entries, es: Entries, files: seq<ArchivedFile>)
    requires WellFormed(source) && WellFormed(es) && Within(es, source)
    requires forall i :: 0 <= i < |files| ==> Holds(FilesOf(source), files[i])
    ensures var o := Import(es, files);
            && o.error.None? && WellFormed(o.entries) && Within(o.entries, source)
            && FilesOf(o.entries).Keys == FilesOf(es).Keys + PathSet(files)
            && DirectoriesOf(o.entries) == DirectoriesOf(es) + Above(files)
    decreases |files|
  {
    hide WellFormed, Parent, WriteFile, FilesOf, DirectoriesOf, Ancestry, Within;
    if files != [] {
      WriteWithin(source, es, files[0]);
      var next := WriteFile(es, files[0].path, files[0].data).entries;
      ImportWithin(source, next, files[1..]);
      assert FilesOf(next).Keys == FilesOf(es).Keys + {files[0].path};
    }
  }

  /**
   Importing the files of a well-formed tree into an empty one, in any order, throws nothing and gives
   the same files; what else it makes are the directories above them.
   */
  lemma ImportRestores(source: Entries, files: seq<ArchivedFile>)
    requires WellFormed(source) && IsArchive(files, FilesOf(source))
    ensures var o := Import(Fresh(), files);
            && o.error.None? && WellFormed(o.entries)
            && FilesOf(o.entries) == FilesOf(source)
            && DirectoriesOf(o.entries) == {"/"} + Above(files)
  {
    hide WellFormed, Import, Above, FilesOf, DirectoriesOf, PathSet, Fresh;
    var empty := Fresh();
    FreshIsWellFormed();
    RootIsDirectory(source);
    ImportWithin(source, empty, files);
    var es := Import(empty, files).entries;
    forall path
      ensures path in FilesOf(es) <==> path in FilesOf(source)
    {
      PathSetIs(files, path);
      if path in PathsOf(files) {
        var i :| 0 <= i < |files| && PathsOf(files)[i] == path;
        assert Holds(FilesOf(source), files[i]);
      }
    }
    assert FilesOf(es) == FilesOf(source);
  }

  lemma RootIsDirectory(es: Entries)
    requires WellFormed(es)
    ensures "/" in DirectoriesOf(es)
  {
  }

  /** Exporting the imported tree gives the same list of files again. */
  lemma ExportImportExport(source: Entries, files: seq<ArchivedFile>, again: seq<ArchivedFile>)
    requires WellFormed(source) && IsExport(files, FilesOf(source))
    requires IsExport(again, FilesOf(Import(Fresh(), files).entries))
    ensures again == files
  {
    hide WellFormed, Import;
    assert IsArchive(files, FilesOf(source));
    ImportRestores(source, files);
    ExportUnique(files, again, FilesOf(source));
  }

  // ----- Which trees survive a round trip -----

  /** Every directory but the root lists something. */
  predicate NoEmptyDirectory(es: Entries) {
    forall d | d in es :: es[d].Directory? && d != "/" ==> es[d].children != {}
  }

  lemma {:induction false} AboveIsListed(es: Entries, path: string, d: string)
    requires WellFormed(es) && path in es && path != "/" && d in Ancestry(Parent(path))
    ensures IsDirectory(es, d) && es[d].children != {}
    decreases |Parts(path)|
  {
    hide Parent, Basename, Child, Normal;
    assert Attached(es, path);
    SplitsIntoParentAndBase(path);
    NormalParent(path);
    if d != Parent(path) { AboveIsListed(es, Parent(path), d); }
  }

  function DeeperThan(es: Entries, depth: nat): set<string> {
    set path | path in es && |Parts(path)| > depth
  }

  /** Below a directory in a tree without empty directories there is a file. */
  lemma {:induction false} FileBelow(es: Entries, d: string) returns (path: string)
    requires WellFormed(es) && NoEmptyDirectory(es) && IsDirectory(es, d) && d != "/"
    ensures path in FilesOf(es) && path != "/" && d in Ancestry(Parent(path))
    decreases |DeeperThan(es, |Parts(d)|)|
  {
    hide Parent, Basename, Child, Normal;
    assert Attached(es, d) && ListsEntries(es, d, es[d]);
    var name :| name in es[d].children;
    var child := Child(d, name);
    ChildIs(d, name);
    SplitsIntoParentAndBase(child);
    AncestryOfNormal(d);
    if es[child].File? {
      path := child;
    } else {
      assert DeeperThan(es, |Parts(child)|) < DeeperThan(es, |Parts(d)|) by {
        assert child in DeeperThan(es, |Parts(d)|) && child !in DeeperThan(es, |Parts(child)|);
      }
      SubsetSmaller(DeeperThan(es, |Parts(child)|), DeeperThan(es, |Parts(d)|));
      path := FileBelow(es, child);
      assert Attached(es, path);
      AncestryUp(Parent(path), child);
    }
  }

  lemma SubsetSmaller(a: set<string>, b: set<string>)
    requires a < b
    ensures |a| < |b|
  {
    assert b == a + (b - a);
    assert |b| == |a| + |b - a|;
    assert b - a != {};
  }

  lemma {:induction false} AncestryUp(path: string, above: string)
    requires above in Ancestry(path) && above != "/"
    ensures Parent(above) in Ancestry(path)
    decreases |Parts(path)|
  {
    hide Parent, Basename, Child;
    NormalParent(path);
    SplitsIntoParentAndBase(path);
    AncestryOfNormal(Parent(path));
    if above != Normal(path) { AncestryUp(Parent(path), above); }
  }

  lemma {:induction false} InAbove(files: seq<ArchivedFile>, d: string)
    ensures d in Above(files) <==> exists i :: 0 <= i < |files| && d in Ancestry(Parent(files[i].path))
  {
    if files != [] {
      InAbove(files[1..], d);
      if i: int :| 0 <= i < |files| && d in Ancestry(Parent(files[i].path)) {
        if i > 0 { assert files[1..][i - 1] == files[i]; }
      }
    }
  }

  /** An archive restores the whole tree exactly when the tree has no empty directory below the root. */
  lemma RestoresTreeExactlyWhen(source: Entries, files: seq<ArchivedFile>)
    requires WellFormed(source) && IsArchive(files, FilesOf(source))
    ensures Import(Fresh(), files).entries == source <==> NoEmptyDirectory(source)
  {
    hide Parent, Basename, Child, Normal, Import, Above, WellFormed;
    ImportRestores(source, files);
    var restored := Import(Fresh(), files).entries;
    if NoEmptyDirectory(source) {
      forall d
        ensures d in DirectoriesOf(source) <==> d in {"/"} + Above(files)
      {
        DirectoryIsAbove(source, files, d);
      }
      TreeDetermined(source, restored);
    }
    if restored == source {
      forall d | d in source && source[d].Directory? && d != "/"
        ensures source[d].children != {}
      {
        assert d in DirectoriesOf(restored);
        AboveNotEmpty(source, files, d);
      }
    }
  }

  lemma AboveNotEmpty(source: Entries, files: seq<ArchivedFile>, d: string)
    requires WellFormed(source) && IsArchive(files, FilesOf(source)) && d in Above(files)
    ensures IsDirectory(source, d) && source[d].children != {}
  {
    hide Parent, Basename, Child, Normal, Above, Ancestry;
    InAbove(files, d);
    var i :| 0 <= i < |files| && d in Ancestry(Parent(files[i].path));
    assert Holds(FilesOf(source), files[i]);
    AboveIsListed(source, files[i].path, d);
  }

  lemma DirectoryIsAbove(source: Entries, files: seq<ArchivedFile>, d: string)
    requires WellFormed(source) && IsArchive(files, FilesOf(source)) && NoEmptyDirectory(source)
    ensures d in DirectoriesOf(source) <==> d == "/" || d in Above(files)
  {
    hide Parent, Basename, Child, Normal, Above, Ancestry;
    if d in DirectoriesOf(source) && d != "/" {
      var path := FileBelow(source, d);
      assert path in PathsOf(files);
      var i :| 0 <= i < |files| && PathsOf(files)[i] == path;
      assert files[i].path == path;
      InAbove(files, d);
    }
    if d in Above(files) { AboveNotEmpty(source, files, d); }
  }
}
