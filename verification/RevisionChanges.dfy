/**
 Recording the changes between two revisions as objects whose content is filled in later, and the cut
 to the file limit.
 */
module RevisionChanges {
  import opened Wrappers
  import opened Leaves
  import opened Changes

  /** The part of a change that is filled in after it has been recorded. */
  datatype ContentDiff = ContentDiff(additions: nat, deletions: nat, unifiedDiff: Option<string>, truncated: bool)

  const BLANK := ContentDiff(0, 0, None, false)

  class DocumentChange {
    const info: ChangeInfo
    var content: ContentDiff

    constructor (info: ChangeInfo)
      ensures this.info == info && content == BLANK
    {
      this.info := info;
      content := BLANK;
    }
  }

  /** A line diff put off, with the change object it will be written to. */
  datatype Deferred = Deferred(change: DocumentChange, task: Task)

  ghost predicate Distinct(changes: seq<DocumentChange>) {
    forall i, j :: 0 <= i < j < |changes| ==> changes[i] != changes[j]
  }

  // ----- Collecting the changes -----

  /** The tasks of some items, each with its change object. */
  function PairUp(changes: seq<DocumentChange>, items: seq<Item>): seq<Deferred>
    requires |changes| == |items|
  {
    if items == [] then []
    else
      var last := |items| - 1;
      PairUp(changes[..last], items[..last]) +
      if items[last].task.Some? then [Deferred(changes[last], items[last].task.value)] else []
  }

  /** The change objects recorded so far stand for these items, in order, with nothing filled in. */
  ghost predicate Recorded(all: seq<DocumentChange>, deferred: seq<Deferred>, summary: Summary, items: seq<Item>)
    reads all
  {
    && |all| == |items| && Distinct(all)
    && (forall k :: 0 <= k < |all| ==> all[k].info == items[k].info && all[k].content == BLANK)
    && deferred == PairUp(all, items)
    && summary == Summarize(items)
  }

  /** Records one more item: its change object, its task if it has one, and its counts. */
  method Record(all: seq<DocumentChange>, deferred: seq<Deferred>, summary: Summary, ghost items: seq<Item>, item: Item)
    returns (change: DocumentChange, deferred': seq<Deferred>, summary': Summary)
    requires Recorded(all, deferred, summary, items)
    ensures fresh(change) && Recorded(all + [change], deferred', summary', items + [item])
  {
    change := new DocumentChange(item.info);
    deferred' := deferred + if item.task.Some? then [Deferred(change, item.task.value)] else [];
    summary' := Summary(
      summary.added + (if item.info.changeType == Added then 1 else 0),
      summary.removed + (if item.info.changeType == Removed then 1 else 0),
      summary.modified + (if item.info.changeType == Modified then 1 else 0),
      summary.reordered + (if item.info.orderChanged then 1 else 0),
      summary.titlesChanged + (if item.info.titleChanged then 1 else 0));
    assert (items + [item])[..|items|] == items && (all + [change])[..|all|] == all;
  }

  /** The head documents in order: an addition, or a comparison with the base leaf of the same id. */
  method CollectHead(base: Revision, head: Revision)
    returns (all: seq<DocumentChange>, deferred: seq<Deferred>, summary: Summary, processedBaseIds: set<string>)
    ensures fresh(all) && Recorded(all, deferred, summary, HeadItems(base, head, |head.leaves|))
    ensures Processed(processedBaseIds, base, head, |head.leaves|)
  {
    hide HeadItem;
    var baseById := IndexById(base.leaves);
    processedBaseIds := {};
    all, deferred, summary := [], [], Summary(0, 0, 0, 0, 0);
    for i := 0 to |head.leaves|
      invariant fresh(all)
      invariant Recorded(all, deferred, summary, HeadItems(base, head, i))
      invariant Processed(processedBaseIds, base, head, i)
    {
      var change;
      change, deferred, summary, processedBaseIds :=
        RecordHead(base, head, i, baseById, all, deferred, summary, processedBaseIds);
      all := all + [change];
      assert fresh(all);
    }
  }

  /** One head document: an addition if the base has no leaf with its id, a comparison otherwise. */
  method RecordHead(base: Revision, head: Revision, i: nat, baseById: map<string, Leaf>,
                    all: seq<DocumentChange>, deferred0: seq<Deferred>, summary0: Summary, processed0: set<string>)
    returns (change: DocumentChange, deferred: seq<Deferred>, summary: Summary, processed: set<string>)
    requires i < |head.leaves| && Recorded(all, deferred0, summary0, HeadItems(base, head, i))
    requires Processed(processed0, base, head, i)
    requires IsIndex(baseById, base.leaves)
    ensures fresh(change) && Recorded(all + [change], deferred, summary, HeadItems(base, head, i + 1))
    ensures Processed(processed, base, head, i + 1)
  {
    var leaf := head.leaves[i];
    var item: Item;
    processed := processed0;
    if leaf.id !in baseById {
      item := AddedItem(leaf, head.documents);
    } else {
      processed := processed + {leaf.id};
      item := ComparedItem(baseById[leaf.id], leaf, base.documents, head.documents);
    }
    HeadStep(base, head, i);
    change, deferred, summary := Record(all, deferred0, summary0, HeadItems(base, head, i), item);
  }

  /** The ids among the first `n` head documents that continue a base document. */
  ghost function Continued(base: Revision, head: Revision, n: nat): set<string>
    requires n <= |head.leaves|
  {
    set k | 0 <= k < n && ById(base.leaves, head.leaves[k].id).Some? :: head.leaves[k].id
  }

  ghost predicate Processed(ids: set<string>, base: Revision, head: Revision, n: nat)
    requires n <= |head.leaves|
  {
    ids == Continued(base, head, n)
  }

  lemma HeadStep(base: Revision, head: Revision, i: nat)
    requires i < |head.leaves|
    ensures HeadItems(base, head, i) + [HeadItem(base, head, head.leaves[i])] == HeadItems(base, head, i + 1)
    ensures Continued(base, head, i + 1) ==
      Continued(base, head, i) + if ById(base.leaves, head.leaves[i].id).Some? then {head.leaves[i].id} else {}
  {
  }

  /** A base document was processed exactly when a head document has its id. */
  lemma ContinuedAll(base: Revision, head: Revision, i: nat)
    requires i < |base.leaves|
    ensures base.leaves[i].id in Continued(base, head, |head.leaves|) <==> HasId(head.leaves, base.leaves[i].id)
  {
    ByIdFinds(base.leaves, base.leaves[i].id);
    assert HasId(base.leaves, base.leaves[i].id);
  }

  /** One base document: a removal unless a head document continued it. */
  method RecordBase(base: Revision, head: Revision, i: nat, processedBaseIds: set<string>, ghost heads: seq<Item>,
                    all: seq<DocumentChange>, deferred0: seq<Deferred>, summary0: Summary)
    returns (added: seq<DocumentChange>, deferred: seq<Deferred>, summary: Summary)
    requires i < |base.leaves| && Processed(processedBaseIds, base, head, |head.leaves|)
    requires Recorded(all, deferred0, summary0, heads + RemovedItems(base, head, i))
    ensures fresh(added) && Recorded(all + added, deferred, summary, heads + RemovedItems(base, head, i + 1))
  {
    var leaf := base.leaves[i];
    ContinuedAll(base, head, i);
    RemovedStep(base, head, i, heads);
    if leaf.id in processedBaseIds {
      assert all + [] == all;
      return [], deferred0, summary0;
    }
    var change;
    change, deferred, summary :=
      Record(all, deferred0, summary0, heads + RemovedItems(base, head, i), RemovedItem(leaf, base.documents));
    added := [change];
  }

  /** All changes: the head documents, then the base documents no head document continues. */
  method CollectChanges(base: Revision, head: Revision)
    returns (all: seq<DocumentChange>, deferred: seq<Deferred>, summary: Summary)
    ensures fresh(all) && Recorded(all, deferred, summary, AllItems(base, head))
  {
    hide HeadItems, Summarize, PairUp, Distinct;
    var processedBaseIds;
    all, deferred, summary, processedBaseIds := CollectHead(base, head);
    ghost var heads := HeadItems(base, head, |head.leaves|);
    assert heads + RemovedItems(base, head, 0) == heads;
    for i := 0 to |base.leaves|
      invariant fresh(all)
      invariant Recorded(all, deferred, summary, heads + RemovedItems(base, head, i))
    {
      var added;
      added, deferred, summary := RecordBase(base, head, i, processedBaseIds, heads, all, deferred, summary);
      all := all + added;
    }
  }

  lemma RemovedStep(base: Revision, head: Revision, i: nat, heads: seq<Item>)
    requires i < |base.leaves|
    ensures heads + RemovedItems(base, head, i + 1) ==
      if HasId(head.leaves, base.leaves[i].id) then heads + RemovedItems(base, head, i)
      else heads + RemovedItems(base, head, i) + [RemovedItem(base.leaves[i], base.documents)]
  {
  }

  /** No change has two deferred diffs. */
  ghost predicate OnePerChange(deferred: seq<Deferred>) {
    forall k, l :: 0 <= k < l < |deferred| ==> deferred[k].change != deferred[l].change
  }

  /** Each deferred diff is the task of an item, kept with that item's change. */
  lemma {:induction false} TaskSources(changes: seq<DocumentChange>, items: seq<Item>)
    requires |changes| == |items|
    ensures forall k :: 0 <= k < |PairUp(changes, items)| ==> HasSource(PairUp(changes, items)[k], changes, items)
  {
    if items != [] {
      var last := |items| - 1;
      var r, before := PairUp(changes, items), PairUp(changes[..last], items[..last]);
      TaskSources(changes[..last], items[..last]);
      forall k | 0 <= k < |r|
        ensures HasSource(r[k], changes, items)
      {
        if k < |before| {
          assert r[k] == before[k] && HasSource(before[k], changes[..last], items[..last]);
          var i :| 0 <= i < last && IsTaskOf(before[k], changes[..last][i], items[..last][i]);
          assert IsTaskOf(r[k], changes[i], items[i]);
        } else {
          assert IsTaskOf(r[k], changes[last], items[last]);
        }
      }
    }
  }

  ghost predicate HasSource(deferred: Deferred, changes: seq<DocumentChange>, items: seq<Item>)
    requires |changes| == |items|
  {
    exists i :: 0 <= i < |items| && IsTaskOf(deferred, changes[i], items[i])
  }

  predicate IsTaskOf(deferred: Deferred, change: DocumentChange, item: Item) {
    item.task == Some(deferred.task) && deferred.change == change
  }

  lemma {:induction false} TasksOnce(changes: seq<DocumentChange>, items: seq<Item>)
    requires |changes| == |items| && Distinct(changes)
    ensures OnePerChange(PairUp(changes, items))
  {
    if items != [] {
      var last := |items| - 1;
      var r, before := PairUp(changes, items), PairUp(changes[..last], items[..last]);
      TasksOnce(changes[..last], items[..last]);
      TaskSources(changes[..last], items[..last]);
      forall k, l | 0 <= k < l < |r|
        ensures r[k].change != r[l].change
      {
        assert r[k] == before[k];
        if l < |before| {
          assert r[l] == before[l];
        } else {
          assert HasSource(before[k], changes[..last], items[..last]);
          var i :| 0 <= i < last && IsTaskOf(before[k], changes[..last][i], items[..last][i]);
          assert before[k].change == changes[i] != changes[last];
        }
      }
    }
  }

  lemma {:induction false} TasksComplete(changes: seq<DocumentChange>, items: seq<Item>)
    requires |changes| == |items|
    ensures forall i :: 0 <= i < |items| && items[i].task.Some? ==>
      Deferred(changes[i], items[i].task.value) in PairUp(changes, items)
  {
    if items != [] {
      var last := |items| - 1;
      var r, before := PairUp(changes, items), PairUp(changes[..last], items[..last]);
      TasksComplete(changes[..last], items[..last]);
      forall i | 0 <= i < |items| && items[i].task.Some?
        ensures Deferred(changes[i], items[i].task.value) in r
      {
        if i < last { assert Deferred(changes[..last][i], items[..last][i].task.value) in before; }
      }
    }
  }

  /** Each recorded change has at most one task, and it is the task of its item. */
  lemma TasksOfChanges(changes: seq<DocumentChange>, items: seq<Item>)
    requires |changes| == |items| && Distinct(changes)
    ensures var r := PairUp(changes, items);
      && (forall k :: 0 <= k < |r| ==> r[k].change in changes)
      && OnePerChange(r)
      && (forall i :: 0 <= i < |items| && items[i].task.Some? ==> Deferred(changes[i], items[i].task.value) in r)
      && (forall k :: 0 <= k < |r| ==> HasSource(r[k], changes, items))
  {
    hide PairUp, Distinct, OnePerChange;
    TaskSources(changes, items);
    TasksOnce(changes, items);
    TasksComplete(changes, items);
  }

  // ----- The file limit -----

  function Filter(changes: seq<DocumentChange>, unchangedOnes: bool): seq<DocumentChange> {
    if changes == [] then []
    else
      var last := |changes| - 1;
      Filter(changes[..last], unchangedOnes) +
      if (changes[last].info.changeType == Unchanged) == unchangedOnes then [changes[last]] else []
  }

  /** All changes if they fit the limit; otherwise the real changes first, cut at the limit. */
  function CutToLimit(all: seq<DocumentChange>, maxFiles: nat): (r: seq<DocumentChange>)
  {
    if |all| <= maxFiles then all
    else
      FilterLength(all);
      (Filter(all, false) + Filter(all, true))[..maxFiles]
  }

  lemma {:induction false} FilterLength(changes: seq<DocumentChange>)
    ensures |Filter(changes, false)| + |Filter(changes, true)| == |changes|
  {
    if changes != [] {
      FilterLength(changes[..|changes| - 1]);
    }
  }

  /** Filtering keeps the changes of its kind, all of them, once each. */
  lemma {:induction false} FilterKeeps(changes: seq<DocumentChange>, unchangedOnes: bool)
    ensures var r := Filter(changes, unchangedOnes);
      && (forall i :: 0 <= i < |r| ==> r[i] in changes && (r[i].info.changeType == Unchanged) == unchangedOnes)
      && (forall i :: 0 <= i < |changes| && (changes[i].info.changeType == Unchanged) == unchangedOnes ==>
            changes[i] in r)
      && (Distinct(changes) ==> Distinct(r))
  {
    if changes != [] {
      var last := |changes| - 1;
      var before, r := Filter(changes[..last], unchangedOnes), Filter(changes, unchangedOnes);
      FilterKeeps(changes[..last], unchangedOnes);
      assert changes == changes[..last] + [changes[last]];
      if Distinct(changes) && |r| > |before| {
        forall i | 0 <= i < |before|
          ensures before[i] != changes[last]
        {
          assert before[i] in changes[..last];
        }
      }
    }
  }

  lemma FilterConcat(all: seq<DocumentChange>)
    requires Distinct(all)
    ensures var both := Filter(all, false) + Filter(all, true);
      Distinct(both) && forall i :: 0 <= i < |both| ==>
        both[i] in all && (both[i].info.changeType == Unchanged <==> i >= |Filter(all, false)|)
  {
    FilterKeeps(all, false);
    FilterKeeps(all, true);
    var changed, rest := Filter(all, false), Filter(all, true);
    var both := changed + rest;
    forall i | 0 <= i < |both|
      ensures both[i] in all
      ensures both[i].info.changeType == Unchanged <==> i >= |changed|
    {
      if i < |changed| {
        assert both[i] == changed[i];
      } else {
        assert both[i] == rest[i - |changed|];
      }
    }
  }

  /** The order in which changes are kept: as recorded if all fit, otherwise the real changes before the unchanged. */
  predicate Sooner(all: seq<DocumentChange>, maxFiles: nat, i: nat, j: nat)
    requires i < |all| && j < |all|
  {
    var unchangedI, unchangedJ := all[i].info.changeType == Unchanged, all[j].info.changeType == Unchanged;
    if |all| <= maxFiles || unchangedI == unchangedJ then i < j else unchangedJ
  }

  /** A change stands at a place of `r`. */
  ghost predicate StandsBefore(r: seq<DocumentChange>, change: DocumentChange, place: nat) {
    exists k :: 0 <= k < place && k < |r| && r[k] == change
  }

  /** The first changes in that order, as many as the limit allows. */
  ghost predicate IsCut(r: seq<DocumentChange>, all: seq<DocumentChange>, maxFiles: nat) {
    && |r| == (if |all| <= maxFiles then |all| else maxFiles)
    && Distinct(r) && (forall l :: 0 <= l < |r| ==> r[l] in all)
    && forall i: nat, j: nat, l: nat |
         i < |all| && j < |all| && l < |r| && Sooner(all, maxFiles, i, j) && r[l] == all[j] ::
         StandsBefore(r, all[i], l)
  }

  /** Filtering keeps the order. */
  lemma {:induction false} FilterInOrder(changes: seq<DocumentChange>, unchangedOnes: bool, i: nat, j: nat, l: nat)
    requires Distinct(changes) && i < j < |changes| && l < |Filter(changes, unchangedOnes)|
    requires (changes[i].info.changeType == Unchanged) == unchangedOnes
    requires Filter(changes, unchangedOnes)[l] == changes[j]
    ensures StandsBefore(Filter(changes, unchangedOnes), changes[i], l)
  {
    var last := |changes| - 1;
    var before := Filter(changes[..last], unchangedOnes);
    FilterKeeps(changes[..last], unchangedOnes);
    if j < last {
      assert l < |before|;
      FilterInOrder(changes[..last], unchangedOnes, i, j, l);
      var k :| 0 <= k < l && before[k] == changes[..last][i];
      assert Filter(changes, unchangedOnes)[k] == changes[i];
    } else {
      forall m | 0 <= m < |before|
        ensures before[m] != changes[last]
      {
        assert before[m] in changes[..last];
      }
      assert changes[..last][i] in before;
      var k :| 0 <= k < |before| && before[k] == changes[i];
      assert Filter(changes, unchangedOnes)[k] == changes[i];
    }
  }

  lemma ConcatInOrder(all: seq<DocumentChange>, maxFiles: nat, i: nat, j: nat, l: nat)
    requires Distinct(all) && |all| > maxFiles && i < |all| && j < |all| && Sooner(all, maxFiles, i, j)
    requires l < |Filter(all, false) + Filter(all, true)| && (Filter(all, false) + Filter(all, true))[l] == all[j]
    ensures StandsBefore(Filter(all, false) + Filter(all, true), all[i], l)
  {
    var changed, rest := Filter(all, false), Filter(all, true);
    var both := changed + rest;
    FilterConcat(all);
    FilterKeeps(all, false);
    hide Filter;
    if all[i].info.changeType != Unchanged && all[j].info.changeType == Unchanged {
      assert all[i] in changed;
      var k :| 0 <= k < |changed| && changed[k] == all[i];
      assert both[k] == all[i];
    } else if l < |changed| {
      FilterInOrder(all, false, i, j, l);
      var k :| 0 <= k < l && k < |changed| && changed[k] == all[i];
      assert both[k] == all[i];
    } else {
      FilterInOrder(all, true, i, j, l - |changed|);
      var k :| 0 <= k < l - |changed| && k < |rest| && rest[k] == all[i];
      assert both[|changed| + k] == all[i];
    }
  }

  lemma CutIs(all: seq<DocumentChange>, maxFiles: nat)
    requires Distinct(all)
    ensures IsCut(CutToLimit(all, maxFiles), all, maxFiles)
  {
    CutKeepsRealChanges(all, maxFiles);
    var r := CutToLimit(all, maxFiles);
    forall i: nat, j: nat, l: nat |
      i < |all| && j < |all| && l < |r| && Sooner(all, maxFiles, i, j) && r[l] == all[j]
      ensures StandsBefore(r, all[i], l)
    {
      if |all| <= maxFiles {
        assert r[i] == all[i] && l == j;
      } else {
        FilterLength(all);
        var both := Filter(all, false) + Filter(all, true);
        assert r[l] == both[l];
        ConcatInOrder(all, maxFiles, i, j, l);
        var k :| 0 <= k < l && k < |both| && both[k] == all[i];
        assert r[k] == both[k];
      }
    }
  }

  /** Only one list is the cut at a limit. */
  lemma {:induction false} CutUnique(r: seq<DocumentChange>, s: seq<DocumentChange>, all: seq<DocumentChange>,
                                     maxFiles: nat, n: nat)
    requires IsCut(r, all, maxFiles) && IsCut(s, all, maxFiles) && n <= |r|
    ensures r[..n] == s[..n]
    ensures n == |r| ==> r == s
  {
    if n > 0 {
      var l := n - 1;
      CutUnique(r, s, all, maxFiles, l);
      if r[l] != s[l] {
        assert r[l] in all && s[l] in all;
        var i: nat :| i < |all| && all[i] == r[l];
        var j: nat :| j < |all| && all[j] == s[l];
        assert i != j;
        if Sooner(all, maxFiles, i, j) {
          FoundEarlier(r, s, all[i], l);
        } else {
          assert Sooner(all, maxFiles, j, i);
          FoundEarlier(s, r, all[j], l);
        }
      }
    }
  }

  lemma FoundEarlier(r: seq<DocumentChange>, s: seq<DocumentChange>, change: DocumentChange, l: nat)
    requires l < |r| && l < |s| && r[..l] == s[..l] && r[l] == change && Distinct(r)
    ensures !StandsBefore(s, change, l)
  {
    forall k | 0 <= k < l
      ensures s[k] != change
    {
      assert r[..l][k] == s[..l][k];
    }
  }

  /** The cut respects the limit, invents and repeats nothing, and drops unchanged documents first. */
  lemma CutKeepsRealChanges(all: seq<DocumentChange>, maxFiles: nat)
    requires Distinct(all)
    ensures var r := CutToLimit(all, maxFiles);
      && |r| == (if |all| <= maxFiles then |all| else maxFiles)
      && Distinct(r) && (forall i :: 0 <= i < |r| ==> r[i] in all)
      && ((exists i :: 0 <= i < |r| && r[i].info.changeType == Unchanged) ==>
           forall j :: 0 <= j < |all| && all[j].info.changeType != Unchanged ==> all[j] in r)
  {
    if |all| > maxFiles {
      FilterLength(all);
      FilterConcat(all);
      FilterKeeps(all, false);
      var changed, both := Filter(all, false), Filter(all, false) + Filter(all, true);
      var r := CutToLimit(all, maxFiles);
      assert forall i :: 0 <= i < |r| ==> r[i] == both[i];
      forall i, j |
        0 <= i < |r| && r[i].info.changeType == Unchanged && 0 <= j < |all| && all[j].info.changeType != Unchanged
        ensures all[j] in r
      {
        var k :| 0 <= k < |changed| && changed[k] == all[j];
        assert r[k] == both[k] == changed[k];
      }
    }
  }
}
