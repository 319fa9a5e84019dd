/** Runs of filesystem calls: the tree stays well-formed exactly as long as every call is safe. */
module FileTreeRuns {
  import opened Utf8
  import opened FileTree
  import opened FileTreeCalls

  datatype Call =
    | MakeDirectory(path: string, recursive: bool)
    | Write(path: string, data: seq<byte>)
    | Remove(path: string)
    | RemoveDirectory(path: string)

  /** The tree after a call, whether the call returns or throws. */
  function Step(es: Entries, call: Call): Entries {
    match call
    case MakeDirectory(path, recursive) => Mkdir(es, path, recursive).entries
    case Write(path, data) => WriteFile(es, path, data).entries
    case Remove(path) => Unlink(es, path).entries
    case RemoveDirectory(path) => Rmdir(es, path).entries
  }

  /** What a caller checks before a call. */
  predicate Safe(es: Entries, call: Call) {
    match call
    case MakeDirectory(path, recursive) => MkdirSafe(es, path, recursive)
    case Write(path, _) => WriteFileSafe(es, path)
    case Remove(_) => true
    case RemoveDirectory(path) => RmdirSafe(es, path)
  }

  function Run(es: Entries, calls: seq<Call>): Entries
    decreases |calls|
  {
    if calls == [] then es else Run(Step(es, calls[0]), calls[1..])
  }

  predicate AllSafe(es: Entries, calls: seq<Call>)
    decreases |calls|
  {
    calls == [] || (Safe(es, calls[0]) && AllSafe(Step(es, calls[0]), calls[1..]))
  }

  /** Well-formed at the start and after every call of a run. */
  ghost predicate StaysWellFormed(es: Entries, calls: seq<Call>) {
    forall k :: 0 <= k <= |calls| ==> WellFormed(Run(es, calls[..k]))
  }

  lemma StepExactly(es: Entries, call: Call)
    requires WellFormed(es)
    ensures WellFormed(Step(es, call)) <==> Safe(es, call)
  {
    hide WellFormed, Mkdir, WriteFile, Unlink, Rmdir, MkdirSafe, WriteFileSafe, RmdirSafe;
    match call
    case MakeDirectory(path, recursive) => MkdirExactly(es, path, recursive);
    case Write(path, data) => WriteFileExactly(es, path, data);
    case Remove(path) => UnlinkExactly(es, path);
    case RemoveDirectory(path) => RmdirExactly(es, path);
  }

  lemma {:induction false} RunExactly(es: Entries, calls: seq<Call>)
    requires WellFormed(es)
    ensures StaysWellFormed(es, calls) <==> AllSafe(es, calls)
    decreases |calls|
  {
    hide WellFormed, Step, Safe;
    if calls == [] {
      assert calls[..0] == [];
    } else {
      var next, rest := Step(es, calls[0]), calls[1..];
      StepExactly(es, calls[0]);
      forall k | 1 <= k <= |calls|
        ensures Run(es, calls[..k]) == Run(next, rest[..k - 1])
      {
        assert calls[..k][0] == calls[0] && calls[..k][1..] == rest[..k - 1];
      }
      assert Run(es, calls[..1]) == next by { assert rest[..0] == []; }
      assert Run(es, calls[..0]) == es;
      if WellFormed(next) {
        RunExactly(next, rest);
        if StaysWellFormed(es, calls) {
          forall k | 0 <= k <= |rest|
            ensures WellFormed(Run(next, rest[..k]))
          {
            assert Run(es, calls[..k + 1]) == Run(next, rest[..k + 1 - 1]);
          }
        }
      }
    }
  }

  lemma FreshIsWellFormed()
    ensures WellFormed(Fresh())
    ensures FilesOf(Fresh()) == map[] && DirectoriesOf(Fresh()) == {"/"}
  {
    Paths.RootParts();
    assert Attached(Fresh(), "/");
  }

  /** From an empty filesystem, a run keeps every directory's list equal to the names below it iff it is safe. */
  lemma SafeRunsFromFresh(calls: seq<Call>)
    ensures StaysWellFormed(Fresh(), calls) <==> AllSafe(Fresh(), calls)
    ensures AllSafe(Fresh(), calls) ==>
              forall d :: IsDirectory(Run(Fresh(), calls), d) ==>
                Run(Fresh(), calls)[d].children == NamesBelow(Run(Fresh(), calls), d)
  {
    FreshIsWellFormed();
    RunExactly(Fresh(), calls);
    if AllSafe(Fresh(), calls) {
      assert calls[..|calls|] == calls;
      var es := Run(Fresh(), calls);
      assert WellFormed(Run(Fresh(), calls[..|calls|]));
      forall d | IsDirectory(es, d)
        ensures es[d].children == NamesBelow(es, d)
      {
        ChildrenAreNames(es, d);
      }
    }
  }
}
