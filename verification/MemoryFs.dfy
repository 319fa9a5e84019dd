/** The in-memory filesystem: one map of entries that the calls update in place. */
module MemoryFs {
  import opened Wrappers
  import opened Utf8
  import opened Paths
  import opened FileTree
  import opened FileTreeCalls
  import opened Archives

  class MemoryFs {
    var entries: Entries

    constructor ()
      ensures entries == Fresh()
    {
      entries := map["/" := Directory({})];
    }

    /** Adds a path to its parent's list, or throws because the parent is no directory. */
    method AddToParent(target: string) returns (error: Option<FileSystemError>)
      modifies this
      ensures Outcome(entries, error) == Listed(old(entries), target)
    {
      var directory := RequireDirectory(entries, Parent(target));
      if directory.Err? { return Some(directory.error); }
      entries := entries[Parent(target) := Directory(directory.value + {Basename(target)})];
      error := None;
    }

    method RemoveFromParent(target: string) returns (error: Option<FileSystemError>)
      modifies this
      ensures Outcome(entries, error) == Unlisted(old(entries), target)
    {
      var directory := RequireDirectory(entries, Parent(target));
      if directory.Err? { return Some(directory.error); }
      entries := entries[Parent(target) := Directory(directory.value - {Basename(target)})];
      error := None;
    }

    method Mkdir(path: string, recursive: bool) returns (error: Option<FileSystemError>)
      modifies this
      ensures Outcome(entries, error) == FileTree.Mkdir(old(entries), path, recursive)
      decreases |Parts(path)|
    {
      hide Parent, Basename, Normal, Listed;
      var target := Normalize(path);
      if target == "/" { return None; }
      NormalIdempotent(path);
      SplitsIntoParentAndBase(target);
      var parent := Parent(target);
      if parent !in entries {
        if !recursive { return Some(FileSystemError(ENOENT, parent)); }
        error := Mkdir(parent, true);
        if error.Some? { return; }
      }
      if target in entries { return None; }
      entries := entries[target := Directory({})];
      error := AddToParent(target);
    }

    method WriteFile(path: string, data: seq<byte>) returns (error: Option<FileSystemError>)
      modifies this
      ensures Outcome(entries, error) == FileTree.WriteFile(old(entries), path, data)
    {
      hide Parent, Basename, Normal, Listed, FileTree.Mkdir;
      var target := Normalize(path);
      error := Mkdir(Parent(target), true);
      if error.Some? { return; }
      entries := entries[target := File(data)];
      error := AddToParent(target);
    }

    method ReadFile(path: string) returns (result: Result<seq<byte>, FileSystemError>)
      ensures result == FileTree.ReadFile(entries, path)
      ensures result.Err? ==>
                result.error == FileSystemError(if Normal(path) in entries then EISDIR else ENOENT, path)
      ensures WellFormed(entries) ==>
                (result.Ok? <==> Normal(path) in FilesOf(entries)) &&
                (result.Ok? ==> result.value == FilesOf(entries)[Normal(path)])
    {
      hide Normal;
      var entry := RequireEntry(entries, path);
      if entry.Err? { return Err(entry.error); }
      if entry.value.Directory? { return Err(FileSystemError(EISDIR, path)); }
      result := Ok(entry.value.data);
    }

    /** The names in a directory in order; in a well-formed tree, of all entries whose parent it is. */
    method Readdir(path: string) returns (result: Result<seq<string>, FileSystemError>)
      ensures result.Err? <==> !IsDirectory(entries, Normal(path))
      ensures result.Err? ==>
                result.error == FileSystemError(if Normal(path) in entries then ENOTDIR else ENOENT, path)
      ensures result.Ok? ==> IsListing(result.value, entries[Normal(path)].children)
      ensures WellFormed(entries) && result.Ok? ==> IsListing(result.value, NamesBelow(entries, Normal(path)))
    {
      hide Normal, Parent, Basename;
      var directory := RequireDirectory(entries, path);
      if directory.Err? { return Err(directory.error); }
      var names := SortNames(directory.value);
      if WellFormed(entries) { ChildrenAreNames(entries, Normal(path)); }
      result := Ok(names);
    }

    method Unlink(path: string) returns (error: Option<FileSystemError>)
      modifies this
      ensures Outcome(entries, error) == FileTree.Unlink(old(entries), path)
    {
      hide Parent, Basename, Normal, Unlisted;
      var target := Normalize(path);
      var entry := RequireEntry(entries, target);
      if entry.Err? { return Some(entry.error); }
      if entry.value.Directory? { return Some(FileSystemError(EISDIR, path)); }
      NormalIdempotent(path);
      entries := entries - {target};
      error := RemoveFromParent(target);
    }

    method Rmdir(path: string) returns (error: Option<FileSystemError>)
      modifies this
      ensures Outcome(entries, error) == FileTree.Rmdir(old(entries), path)
    {
      hide Parent, Basename, Normal, Unlisted;
      var target := Normalize(path);
      var directory := RequireDirectory(entries, target);
      if directory.Err? { return Some(directory.error); }
      if directory.value != {} { return Some(FileSystemError(ENOTEMPTY, path)); }
      entries := entries - {target};
      error := RemoveFromParent(target);
    }

    /** Writes archived files in order and stops at the first error. */
    method ImportFiles(files: seq<ArchivedFile>) returns (error: Option<FileSystemError>)
      modifies this
      ensures Outcome(entries, error) == Import(old(entries), files)
      ensures forall source ::
                old(entries) == Fresh() && WellFormed(source) && IsArchive(files, FilesOf(source)) ==>
                  error.None? && WellFormed(entries) && FilesOf(entries) == FilesOf(source)
    {
      hide FileTree.WriteFile, WellFormed, FilesOf;
      var i := 0;
      while i < |files|
        invariant i <= |files|
        invariant Import(old(entries), files) == Import(entries, files[i..])
      {
        assert files[i..][0] == files[i] && files[i..][1..] == files[i + 1..];
        error := WriteFile(files[i].path, files[i].data);
        if error.Some? { break; }
        i := i + 1;
      }
      if i == |files| { error := None; }
      forall source | old(entries) == Fresh() && WellFormed(source) && IsArchive(files, FilesOf(source))
        ensures error.None? && WellFormed(entries) && FilesOf(entries) == FilesOf(source)
      {
        ImportRestores(source, files);
      }
    }

    /** All files sorted by path. */
    method ExportFiles() returns (files: seq<ArchivedFile>)
      ensures IsExport(files, FilesOf(entries))
    {
      var contents := map path | path in entries && entries[path].File? :: entries[path].data;
      assert contents == FilesOf(entries);
      var paths := SortNames(contents.Keys);
      files := [];
      for i := 0 to |paths|
        invariant PathsOf(files) == paths[..i]
        invariant forall k :: 0 <= k < i ==> Holds(contents, files[k])
      {
        assert paths[i] in paths;
        files := files + [ArchivedFile(paths[i], contents[paths[i]])];
      }
    }
  }
}
