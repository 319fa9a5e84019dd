/**
 What each filesystem call does to a well-formed tree: exactly when it throws, exactly when the tree it
 leaves is still well-formed, and its effect on the files and on the directories.
 */
module FileTreeCalls {
  import opened Wrappers
  import opened Utf8
  import opened Paths
  import opened FileTree

  function FilesOf(es: Entries): map<string, seq<byte>> {
    map path | path in es && es[path].File? :: es[path].data
  }

  function DirectoriesOf(es: Entries): set<string> {
    set path | path in es && es[path].Directory?
  }

  /** The normalized path, its parent, and so on up to the root. */
  function Ancestry(path: string): set<string>
    decreases |Parts(path)|
  {
    if Normal(path) == "/" then {"/"}
    else
      SplitsIntoParentAndBase(path);
      {Normal(path)} + Ancestry(Parent(path))
  }

  predicate IsDirectory(es: Entries, path: string) {
    path in es && es[path].Directory?
  }

  lemma NormalParent(path: string)
    ensures Normal(Normal(path)) == Normal(path)
    ensures Parent(Normal(path)) == Parent(path) && Basename(Normal(path)) == Basename(path)
    ensures Normal(Parent(path)) == Parent(path)
  {
    NormalIdempotent(path);
    ParentIs(path);
    ParentIs(Normal(path));
  }

  lemma {:induction false} AncestryOfNormal(path: string)
    ensures Ancestry(Normal(path)) == Ancestry(path)
    ensures Nearest(map[], path) == "/"
    ensures Normal(path) in Ancestry(path) && "/" in Ancestry(path)
    decreases |Parts(path)|
  {
    NormalParent(path);
    RootParts();
    if Normal(path) != "/" {
      SplitsIntoParentAndBase(path);
      AncestryOfNormal(Parent(path));
    }
  }

  /** A well-formed tree is determined by its files and its directories. */
  lemma TreeDetermined(es: Entries, es': Entries)
    requires WellFormed(es) && WellFormed(es')
    requires FilesOf(es) == FilesOf(es') && DirectoriesOf(es) == DirectoriesOf(es')
    ensures es == es'
  {
    hide Parent, Basename, Child, Normal;
    forall path
      ensures path in es <==> path in es'
      ensures path in es && path in es' && es[path].File? ==> es'[path] == es[path]
      ensures path in es && path in es' ==> (es[path].File? <==> es'[path].File?)
    {
      assert path in es <==> path in FilesOf(es) || path in DirectoriesOf(es);
      assert path in es' <==> path in FilesOf(es') || path in DirectoriesOf(es');
      assert path in es && es[path].File? <==> path in FilesOf(es);
      assert path in es' && es'[path].File? <==> path in FilesOf(es');
      if path in FilesOf(es) { assert FilesOf(es)[path] == FilesOf(es')[path]; }
    }
    forall path | path in es && es[path].Directory?
      ensures es'[path] == es[path]
    {
      ChildrenAreNames(es, path);
      ChildrenAreNames(es', path);
      assert NamesBelow(es, path) == NamesBelow(es', path);
    }
  }

  /** Everything above an entry is a directory. */
  lemma {:induction false} AboveAreDirectories(es: Entries, path: string)
    requires WellFormed(es) && IsDirectory(es, path)
    ensures Ancestry(path) <= DirectoriesOf(es)
    decreases |Parts(path)|
  {
    assert Attached(es, path);
    if path != "/" {
      SplitsIntoParentAndBase(path);
      AboveAreDirectories(es, Parent(path));
    }
  }

  lemma {:induction false} NearestExists(es: Entries, path: string)
    requires WellFormed(es)
    ensures Nearest(es, path) in es && Nearest(es, path) in Ancestry(path)
    decreases |Parts(path)|
  {
    if Normal(path) !in es {
      SplitsIntoParentAndBase(path);
      NearestExists(es, Parent(path));
    }
  }

  // ----- Adding and removing one entry -----

  /** An entry under a directory, in the place of nothing, a file or an empty directory. */
  ghost predicate CanPut(es: Entries, target: string, entry: Entry) {
    && WellFormed(es)
    && Canonical(target) && target != "/" && IsDirectory(es, Parent(target))
    && (target in es ==> es[target].File? || es[target].children == {})
    && (entry.Directory? ==> entry.children == {})
  }

  function Put(es: Entries, target: string, entry: Entry): Entries
    requires IsDirectory(es, Parent(target))
  {
    es[target := entry][Parent(target) := Directory(es[Parent(target)].children + {Basename(target)})]
  }

  lemma PutKeepsWellFormed(es: Entries, target: string, entry: Entry)
    requires CanPut(es, target, entry)
    ensures Listed(es[target := entry], target) == Done(Put(es, target, entry))
    ensures WellFormed(Put(es, target, entry))
  {
    hide Parent, Basename, Child, Normal;
    var es' := Put(es, target, entry);
    var parent, name := Parent(target), Basename(target);
    SplitsIntoParentAndBase(target);
    NormalParent(target);
    forall path | path in es'
      ensures Attached(es', path)
    {
      if path != target { assert Attached(es, path); }
    }
    forall path | path in es'
      ensures ListsEntries(es', path, es'[path])
    {
      if path != target { assert ListsEntries(es, path, es[path]); }
    }
  }

  lemma UpdateEffect(es: Entries, path: string, entry: Entry)
    ensures FilesOf(es[path := entry])
         == if entry.File? then FilesOf(es)[path := entry.data] else FilesOf(es) - {path}
    ensures DirectoriesOf(es[path := entry])
         == if entry.File? then DirectoriesOf(es) - {path} else DirectoriesOf(es) + {path}
  {
  }

  lemma RemoveEffect(es: Entries, path: string)
    ensures FilesOf(es - {path}) == FilesOf(es) - {path}
    ensures DirectoriesOf(es - {path}) == DirectoriesOf(es) - {path}
  {
  }

  lemma PutEffect(es: Entries, target: string, entry: Entry)
    requires CanPut(es, target, entry)
    ensures entry.File? ==> FilesOf(Put(es, target, entry)) == FilesOf(es)[target := entry.data]
    ensures entry.File? ==> DirectoriesOf(Put(es, target, entry)) == DirectoriesOf(es) - {target}
    ensures entry.Directory? && target !in es ==> FilesOf(Put(es, target, entry)) == FilesOf(es)
    ensures entry.Directory? ==> DirectoriesOf(Put(es, target, entry)) == DirectoriesOf(es) + {target}
  {
    hide Parent, Basename, Child, Normal, WellFormed;
    SplitsIntoParentAndBase(target);
    var parent := Parent(target);
    UpdateEffect(es, target, entry);
    UpdateEffect(es[target := entry], parent, Directory(es[parent].children + {Basename(target)}));
    assert parent in DirectoriesOf(es) && parent !in FilesOf(es);
    assert target !in es ==> target !in FilesOf(es);
  }

  /** An entry whose parent is missing or a file spoils the tree. */
  lemma MisplacedFails(es: Entries, target: string, entry: Entry)
    requires Canonical(target) && target != "/" && !IsDirectory(es, Parent(target))
    ensures Listed(es[target := entry], target).entries == es[target := entry]
    ensures !WellFormed(es[target := entry])
    ensures Parent(target) in es ==>
              Listed(es[target := entry], target).error == Some(FileSystemError(ENOTDIR, Parent(target)))
  {
    SplitsIntoParentAndBase(target);
    NormalParent(target);
    assert !Attached(es[target := entry], target);
  }

  /** A file or an empty directory, other than the root, taken out of its directory. */
  ghost predicate CanTake(es: Entries, target: string) {
    && WellFormed(es)
    && target in es && target != "/"
    && (es[target].File? || es[target].children == {})
  }

  function Take(es: Entries, target: string): Entries
    requires IsDirectory(es, Parent(target))
  {
    (es - {target})[Parent(target) := Directory(es[Parent(target)].children - {Basename(target)})]
  }

  lemma TakeKeepsWellFormed(es: Entries, target: string)
    requires CanTake(es, target)
    ensures IsDirectory(es, Parent(target))
    ensures Unlisted(es - {target}, target) == Done(Take(es, target))
    ensures WellFormed(Take(es, target))
  {
    hide Parent, Basename, Child, Normal;
    TakeIs(es, target);
    hide Unlisted;
    SplitsIntoParentAndBase(target);
    var es' := Take(es, target);
    forall path | path in es'
      ensures Attached(es', path)
    {
      TakeAttached(es, target, path);
    }
    forall path | path in es'
      ensures ListsEntries(es', path, es'[path])
    {
      assert ListsEntries(es, path, es[path]);
      if es'[path].Directory? { TakeLists(es, target, path); }
    }
  }

  lemma TakeIs(es: Entries, target: string)
    requires CanTake(es, target)
    ensures IsDirectory(es, Parent(target)) && Normal(target) == target && Parent(target) != target
    ensures Unlisted(es - {target}, target) == Done(Take(es, target))
  {
    hide Parent, Basename, Child, Normal;
    assert Attached(es, target);
    SplitsIntoParentAndBase(target);
    NormalParent(target);
  }

  lemma TakeAttached(es: Entries, target: string, path: string)
    requires CanTake(es, target) && IsDirectory(es, Parent(target)) && Parent(target) != target
    requires path in Take(es, target)
    ensures Attached(Take(es, target), path)
  {
    hide Parent, Basename, Child, Normal;
    assert Attached(es, path) && Attached(es, target);
    if path != "/" && Parent(path) == Parent(target) && Basename(path) == Basename(target) {
      SplitsIntoParentAndBase(path);
      SplitsIntoParentAndBase(target);
    }
  }

  lemma TakeLists(es: Entries, target: string, path: string)
    requires CanTake(es, target) && IsDirectory(es, Parent(target)) && IsDirectory(Take(es, target), path)
    requires IsDirectory(es, path)
    ensures ListsEntries(Take(es, target), path, Take(es, target)[path])
  {
    hide Parent, Basename, Child, Normal;
    assert Attached(es, path) && ListsEntries(es, path, es[path]);
    forall name | name in Take(es, target)[path].children
      ensures IsName(name) && Child(path, name) in Take(es, target)
    {
      assert name in es[path].children;
      ChildIs(path, name);
    }
  }

  lemma TakeEffect(es: Entries, target: string)
    requires CanTake(es, target) && IsDirectory(es, Parent(target))
    ensures FilesOf(Take(es, target)) == FilesOf(es) - {target}
    ensures DirectoriesOf(Take(es, target)) == DirectoriesOf(es) - {target}
  {
    hide Parent, Basename, Child, Normal;
    assert Attached(es, target);
    SplitsIntoParentAndBase(target);
    var parent := Parent(target);
    RemoveEffect(es, target);
    UpdateEffect(es - {target}, parent, Directory(es[parent].children - {Basename(target)}));
    assert parent in DirectoriesOf(es) && parent !in FilesOf(es);
  }

  // ----- The calls -----

  /** True when making a directory leaves a well-formed tree well-formed. */
  predicate MkdirSafe(es: Entries, path: string, recursive: bool) {
    Normal(path) in es || IsDirectory(es, Nearest(es, path)) || (Parent(path) !in es && !recursive)
  }

  lemma {:induction false} MkdirExactly(es: Entries, path: string, recursive: bool)
    requires WellFormed(es)
    ensures var o := Mkdir(es, path, recursive);
            && (WellFormed(o.entries) <==> MkdirSafe(es, path, recursive))
            && o.error ==
               (if Normal(path) in es then None
                else if Parent(path) !in es && !recursive then Some(FileSystemError(ENOENT, Parent(path)))
                else if IsDirectory(es, Nearest(es, path)) then None
                else Some(FileSystemError(ENOTDIR, Nearest(es, path))))
    ensures FilesOf(Mkdir(es, path, recursive).entries) == FilesOf(es)
    ensures var o := Mkdir(es, path, recursive);
            o.error.None? ==>
              DirectoriesOf(o.entries)
              == DirectoriesOf(es) + if Normal(path) in FilesOf(es) then {} else Ancestry(path)
    decreases |Parts(path)|, 1
  {
    hide Parent, Basename, Child, Normal;
    var target := Normal(path);
    NormalParent(path);
    if target in es {
      if target != "/" { assert Attached(es, target); }
      if es[target].Directory? {
        AncestryOfNormal(path);
        AboveAreDirectories(es, target);
      }
    } else if Parent(path) in es || recursive {
      MkdirMissing(es, path, recursive);
    }
  }

  lemma {:induction false} AncestryShorter(path: string, above: string)
    requires above in Ancestry(path)
    ensures Canonical(above) && |Parts(above)| <= |Parts(path)|
    decreases |Parts(path)|
  {
    NormalIdempotent(path);
    RootParts();
    if Normal(path) != "/" && above != Normal(path) {
      SplitsIntoParentAndBase(path);
      AncestryShorter(Parent(path), above);
    }
  }

  predicate InTree(es: Entries, path: string) {
    path in FilesOf(es) || path in DirectoriesOf(es)
  }

  lemma {:induction false} MkdirMissing(es: Entries, path: string, recursive: bool)
    requires WellFormed(es) && Normal(path) !in es && (Parent(path) in es || recursive)
    ensures var o := Mkdir(es, path, recursive);
            && (WellFormed(o.entries) <==> IsDirectory(es, Nearest(es, path)))
            && o.error == (if IsDirectory(es, Nearest(es, path)) then None
                           else Some(FileSystemError(ENOTDIR, Nearest(es, path))))
            && FilesOf(o.entries) == FilesOf(es)
            && (o.error.None? ==> DirectoriesOf(o.entries) == DirectoriesOf(es) + Ancestry(path))
    decreases |Parts(path)|, 0
  {
    hide Parent, Basename, Child, Normal;
    var target, parent := Normal(path), Parent(path);
    NormalParent(path);
    NormalIdempotent(path);
    SplitsIntoParentAndBase(path);
    if parent in es {
      assert Mkdir(es, path, recursive) == Listed(es[target := Directory({})], target);
      MkdirUnder(es, target);
      if IsDirectory(es, parent) { AboveAreDirectories(es, parent); }
    } else {
      MkdirExactly(es, parent, true);
      var above := Mkdir(es, parent, true);
      if above.error.None? {
        AncestryOfNormal(parent);
        if target in Ancestry(parent) { AncestryShorter(parent, target); }
        assert InTree(above.entries, target) <==> InTree(es, target);
        assert target !in above.entries;
        assert Mkdir(es, path, recursive) == Listed(above.entries[target := Directory({})], target);
        assert !(parent in FilesOf(es));
        assert parent in DirectoriesOf(above.entries);
        MkdirUnder(above.entries, target);
      }
    }
  }

  lemma MkdirUnder(es: Entries, target: string)
    requires WellFormed(es) && Canonical(target) && target != "/" && target !in es && Parent(target) in es
    ensures var o := Listed(es[target := Directory({})], target);
            && (WellFormed(o.entries) <==> IsDirectory(es, Parent(target)))
            && o.error == (if IsDirectory(es, Parent(target)) then None
                           else Some(FileSystemError(ENOTDIR, Parent(target))))
            && FilesOf(o.entries) == FilesOf(es)
            && (o.error.None? ==> DirectoriesOf(o.entries) == DirectoriesOf(es) + {target})
  {
    hide Parent, Basename, Child, Normal;
    if IsDirectory(es, Parent(target)) {
      PutKeepsWellFormed(es, target, Directory({}));
      PutEffect(es, target, Directory({}));
    } else {
      MisplacedFails(es, target, Directory({}));
    }
  }

  /** True when writing a file leaves a well-formed tree well-formed. */
  predicate WriteFileSafe(es: Entries, path: string) {
    && Normal(path) != "/"
    && IsDirectory(es, Nearest(es, Parent(path)))
    && (IsDirectory(es, Normal(path)) ==> es[Normal(path)].children == {})
  }

  lemma WriteFileExactly(es: Entries, path: string, data: seq<byte>)
    requires WellFormed(es)
    ensures var o := WriteFile(es, path, data);
            && (WellFormed(o.entries) <==> WriteFileSafe(es, path))
            && o.error == (if Normal(path) != "/" && IsDirectory(es, Nearest(es, Parent(path))) then None
                           else Some(FileSystemError(ENOTDIR, Nearest(es, Parent(path)))))
    ensures WriteFileSafe(es, path) ==>
              var o := WriteFile(es, path, data);
              && FilesOf(o.entries) == FilesOf(es)[Normal(path) := data]
              && DirectoriesOf(o.entries) == DirectoriesOf(es) - {Normal(path)} + Ancestry(Parent(path))
  {
    hide Parent, Basename, Child, Normal, Mkdir, Nearest, WellFormed, FilesOf, DirectoriesOf, Ancestry, RequireEntry;
    var target, parent := Normal(path), Parent(path);
    NormalParent(path);
    if target == "/" {
      WriteRoot(es, path, data);
    } else {
      MkdirExactly(es, parent, true);
      var above := Mkdir(es, parent, true);
      if above.error.None? {
        MkdirAbove(es, path);
        WriteUnder(above.entries, target, data);
      }
    }
  }

  /** Writing at the root puts a file there. */
  lemma WriteRoot(es: Entries, path: string, data: seq<byte>)
    requires WellFormed(es) && Normal(path) == "/"
    ensures WriteFile(es, path, data)
         == Outcome(es["/" := File(data)], Some(FileSystemError(ENOTDIR, Nearest(es, Parent(path)))))
    ensures !WellFormed(es["/" := File(data)])
  {
    hide Parent, Basename, Child, Normal;
    NormalParent(path);
    RootParts();
    assert Normal("/") == "/";
  }

  lemma NearestAbove(es: Entries, path: string)
    requires WellFormed(es) && Parent(path) in es
    ensures Nearest(es, Parent(path)) == Parent(path)
    ensures Normal(path) in es ==> IsDirectory(es, Parent(path))
    ensures IsDirectory(es, Parent(path)) ==> Ancestry(Parent(path)) <= DirectoriesOf(es)
  {
    hide Parent, Basename, Child, Normal;
    NormalParent(path);
    RootParts();
    if Normal(path) in es { assert Attached(es, Normal(path)); }
    if IsDirectory(es, Parent(path)) { AboveAreDirectories(es, Parent(path)); }
  }

  /** The tree after the directories above a path have been made. */
  lemma MkdirAbove(es: Entries, path: string)
    requires WellFormed(es) && Normal(path) != "/" && Mkdir(es, Parent(path), true).error.None?
    ensures var above := Mkdir(es, Parent(path), true).entries;
            && WellFormed(above) && Parent(path) in above && FilesOf(above) == FilesOf(es)
            && (Normal(path) in es ==> above == es) && (Normal(path) !in es ==> Normal(path) !in above)
            && (IsDirectory(above, Parent(path)) <==> IsDirectory(es, Nearest(es, Parent(path))))
            && (!IsDirectory(above, Parent(path)) ==> Nearest(es, Parent(path)) == Parent(path))
            && (IsDirectory(above, Parent(path)) ==>
                  DirectoriesOf(above) == DirectoriesOf(es) + Ancestry(Parent(path)))
            && Normal(path) !in Ancestry(Parent(path))
  {
    hide Parent, Basename, Child, Normal;
    var target, parent := Normal(path), Parent(path);
    NormalParent(path);
    SplitsIntoParentAndBase(path);
    NormalIdempotent(path);
    if target in Ancestry(parent) { AncestryShorter(parent, target); }
    if parent in es {
      NearestAbove(es, path);
      assert Mkdir(es, parent, true) == Done(es);
    } else {
      MkdirExactly(es, parent, true);
      var above := Mkdir(es, parent, true).entries;
      AncestryOfNormal(parent);
      assert parent in DirectoriesOf(above);
      assert InTree(above, target) <==> InTree(es, target);
      assert target in es ==> Attached(es, target);
    }
  }

  lemma WriteUnder(es: Entries, target: string, data: seq<byte>)
    requires WellFormed(es) && Canonical(target) && target != "/" && Parent(target) in es
    ensures var o := Listed(es[target := File(data)], target);
            && (WellFormed(o.entries) <==>
                IsDirectory(es, Parent(target)) && (IsDirectory(es, target) ==> es[target].children == {}))
            && o.error == (if IsDirectory(es, Parent(target)) then None
                           else Some(FileSystemError(ENOTDIR, Parent(target))))
            && (WellFormed(o.entries) ==>
                && FilesOf(o.entries) == FilesOf(es)[target := data]
                && DirectoriesOf(o.entries) == DirectoriesOf(es) - {target})
  {
    hide Parent, Basename, Child, Normal;
    if !IsDirectory(es, Parent(target)) {
      MisplacedFails(es, target, File(data));
    } else if IsDirectory(es, target) && es[target].children != {} {
      OrphansLeft(es, target, data);
    } else {
      PutKeepsWellFormed(es, target, File(data));
      PutEffect(es, target, File(data));
    }
  }

  /** Overwriting a directory that lists entries leaves them under a file. */
  lemma OrphansLeft(es: Entries, target: string, data: seq<byte>)
    requires WellFormed(es) && target != "/"
    requires IsDirectory(es, target) && es[target].children != {}
    ensures IsDirectory(es, Parent(target))
    ensures Listed(es[target := File(data)], target) == Done(Put(es, target, File(data)))
    ensures !WellFormed(Put(es, target, File(data)))
  {
    hide Parent, Basename, Child, Normal;
    assert Attached(es, target) && ListsEntries(es, target, es[target]);
    SplitsIntoParentAndBase(target);
    NormalParent(target);
    var name :| name in es[target].children;
    ChildIs(target, name);
    var after := Put(es, target, File(data));
    assert Child(target, name) in after && !Attached(after, Child(target, name));
  }

  lemma UnlinkExactly(es: Entries, path: string)
    requires WellFormed(es)
    ensures var o := Unlink(es, path);
            && WellFormed(o.entries)
            && FilesOf(o.entries) == FilesOf(es) - {Normal(path)}
            && DirectoriesOf(o.entries) == DirectoriesOf(es)
            && o.error == (if Normal(path) in FilesOf(es) then None
                           else if Normal(path) in es then Some(FileSystemError(EISDIR, path))
                           else Some(FileSystemError(ENOENT, Normal(path))))
  {
    hide Parent, Basename, Child, Normal;
    var target := Normal(path);
    NormalParent(path);
    if target in FilesOf(es) {
      TakeKeepsWellFormed(es, target);
      TakeEffect(es, target);
    }
  }

  /** True when removing a directory leaves a well-formed tree well-formed. */
  predicate RmdirSafe(es: Entries, path: string) {
    Normal(path) == "/" && "/" in es && es["/"].Directory? ==> es["/"].children != {}
  }

  lemma RmdirExactly(es: Entries, path: string)
    requires WellFormed(es)
    ensures var o := Rmdir(es, path);
            && (WellFormed(o.entries) <==> RmdirSafe(es, path))
            && FilesOf(o.entries) == FilesOf(es)
            && DirectoriesOf(o.entries)
               == DirectoriesOf(es) - (if NamesBelow(es, Normal(path)) == {} then {Normal(path)} else {})
            && o.error ==
               (if Normal(path) !in es then Some(FileSystemError(ENOENT, Normal(path)))
                else if Normal(path) in FilesOf(es) then Some(FileSystemError(ENOTDIR, Normal(path)))
                else if NamesBelow(es, Normal(path)) != {} then Some(FileSystemError(ENOTEMPTY, path))
                else if Normal(path) == "/" then Some(FileSystemError(ENOENT, "/"))
                else None)
  {
    hide Parent, Basename, Child, Normal;
    var target := Normal(path);
    NormalParent(path);
    if target in DirectoriesOf(es) {
      ChildrenAreNames(es, target);
      if es[target].children == {} { RmdirEmpty(es, path); }
    }
  }

  lemma RmdirEmpty(es: Entries, path: string)
    requires WellFormed(es) && IsDirectory(es, Normal(path)) && es[Normal(path)].children == {}
    ensures var o := Rmdir(es, path);
            && (WellFormed(o.entries) <==> Normal(path) != "/")
            && o.error == (if Normal(path) == "/" then Some(FileSystemError(ENOENT, "/")) else None)
            && FilesOf(o.entries) == FilesOf(es)
            && DirectoriesOf(o.entries) == DirectoriesOf(es) - {Normal(path)}
  {
    hide Parent, Basename, Child, Normal, Unlisted, WellFormed, FilesOf, DirectoriesOf;
    var target := Normal(path);
    NormalParent(path);
    DirectoryIsNoFile(es, target);
    assert Rmdir(es, path) == Unlisted(es - {target}, target);
    if target == "/" {
      UnlistRoot(es);
      RemoveEffect(es, target);
    } else {
      TakeKeepsWellFormed(es, target);
      TakeEffect(es, target);
    }
  }

  lemma DirectoryIsNoFile(es: Entries, path: string)
    requires IsDirectory(es, path)
    ensures FilesOf(es) - {path} == FilesOf(es)
  {
  }

  lemma UnlistRoot(es: Entries)
    ensures !WellFormed(es - {"/"})
    ensures Unlisted(es - {"/"}, "/") == Failed(es - {"/"}, ENOENT, "/")
  {
    hide Parent, Basename, Normal;
    RootParts();
    assert Normal("/") == "/";
  }
}
