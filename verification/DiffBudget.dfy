/**
 Line diffs under a byte budget: each change gets as much of its diff as the budget leaves, and the
 text of all changes stays within the same number of bytes.
 */
module DiffBudget {
  import opened Wrappers
  import opened Changes
  import opened RevisionChanges
  import opened Utf8
  import Text
  import EditScript
  import LineDiff
  import UnifiedDiff

  const TRUNCATION_MARKER := "\n[diff truncated: exceeded byte limit]\n"

  /** A change as a reader sees it at one moment. */
  datatype View = View(info: ChangeInfo, content: ContentDiff)

  function Views(changes: seq<DocumentChange>): (views: seq<View>)
    reads changes
    ensures |views| == |changes|
    ensures forall i :: 0 <= i < |changes| ==> views[i] == View(changes[i].info, changes[i].content)
  {
    if changes == [] then []
    else
      var last := |changes| - 1;
      Views(changes[..last]) + [View(changes[last].info, changes[last].content)]
  }

  function DiffBytes(content: ContentDiff): nat {
    match content.unifiedDiff
    case None => 0
    case Some(text) => Utf8ByteLength(text)
  }

  function TotalBytes(views: seq<View>): nat {
    if views == [] then 0
    else TotalBytes(views[..|views| - 1]) + DiffBytes(views[|views| - 1].content)
  }

  lemma {:induction false} TotalUpdate(views: seq<View>, i: nat, v: View)
    requires i < |views|
    ensures TotalBytes(views[i := v]) == TotalBytes(views) - DiffBytes(views[i].content) + DiffBytes(v.content)
  {
    var last := |views| - 1;
    if i == last {
      assert views[i := v][..last] == views[..last];
    } else {
      TotalUpdate(views[..last], i, v);
      assert views[i := v][..last] == views[..last][i := v];
    }
  }

  lemma {:induction false} TotalBlank(views: seq<View>)
    requires forall i :: 0 <= i < |views| ==> views[i].content == BLANK
    ensures TotalBytes(views) == 0
  {
    if views != [] {
      TotalBlank(views[..|views| - 1]);
    }
  }

  // ----- One line diff -----

  /** A shown diff is whole: empty only for equal lines, and otherwise naming its files and faithful to both texts. */
  ghost predicate ShowsWhole(task: Task, unifiedDiff: Option<string>) {
    match unifiedDiff
    case None => EditScript.Changes(LineDiff.EditLines(task.baseContent, task.headContent)) == 0
    case Some(text) =>
      text != "" && (Text.Without(task.path, '\n') && Text.Without(task.oldPath, '\n') ==>
        && UnifiedDiff.Faithful(text, task.baseContent, task.headContent)
        && UnifiedDiff.NamesFiles(text, task.baseContent, task.headContent, task.path, task.oldPath))
  }

  /** What the caller wants of a diff. */
  datatype Wanted = Wanted(includeUnified: bool, contextLines: int)

  /** The counts are the script's; the diff is whole unless it is marked as truncated or not wanted. */
  ghost predicate Carried(task: Task, content: ContentDiff, includeUnified: bool) {
    var script := LineDiff.EditLines(task.baseContent, task.headContent);
    && content.additions == EditScript.Count(script, EditScript.Addition)
    && content.deletions == EditScript.Count(script, EditScript.Deletion)
    && (if includeUnified then content.truncated || ShowsWhole(task, content.unifiedDiff)
        else content.unifiedDiff == None && !content.truncated)
  }

  /** A diff that exceeds its budget: a prefix of it, then as much of the marker as fits. */
  function CutText(unified: string, budget: nat): string {
    var marker := Truncated(TRUNCATION_MARKER, budget);
    Truncated(unified, budget - Utf8ByteLength(marker)) + marker
  }

  /** What is shown of a diff under a budget that is not used up, and what is left of the budget. */
  ghost predicate ShownWithin(unified: string, content: ContentDiff, budget: nat, left: nat) {
    var bytes := Utf8ByteLength(unified);
    && content.truncated == (bytes > budget)
    && content.unifiedDiff ==
       (if unified == "" then None else if bytes <= budget then Some(unified) else Some(CutText(unified, budget)))
    && left == (if bytes <= budget then budget - bytes else 0)
  }

  ghost predicate IsDiffOf(unified: string, task: Task, contextLines: int) {
    UnifiedDiff.IsUnifiedDiff(unified, task.path, task.baseContent, task.headContent, contextLines, task.oldPath)
  }

  /** The unified diff of a task, shown as far as the budget goes. */
  ghost predicate ShowsUnified(task: Task, contextLines: int, content: ContentDiff, budget: nat, left: nat) {
    exists unified :: IsDiffOf(unified, task, contextLines) && ShownWithin(unified, content, budget, left)
  }

  /** The content of a change and the budget left, from its task and the budget before; nothing is left open. */
  ghost predicate Filled(task: Task, content: ContentDiff, wanted: Wanted, budget: nat, left: nat) {
    var script := LineDiff.EditLines(task.baseContent, task.headContent);
    && content.additions == EditScript.Count(script, EditScript.Addition)
    && content.deletions == EditScript.Count(script, EditScript.Deletion)
    && (if !wanted.includeUnified then content.unifiedDiff == None && !content.truncated && left == budget
        else if budget == 0 then content.unifiedDiff == None && content.truncated && left == 0
        else ShowsUnified(task, wanted.contextLines, content, budget, left))
  }

  /** A task and a budget determine the content and what is left. */
  lemma FilledUnique(task: Task, c: ContentDiff, d: ContentDiff, wanted: Wanted, budget: nat, left: nat, left': nat)
    requires Filled(task, c, wanted, budget, left) && Filled(task, d, wanted, budget, left')
    ensures c == d && left == left'
  {
    hide UnifiedDiff.IsUnifiedDiff, CutText;
    if wanted.includeUnified && budget > 0 {
      hide IsDiffOf, ShownWithin;
      var u :| IsDiffOf(u, task, wanted.contextLines) && ShownWithin(u, c, budget, left);
      var v :| IsDiffOf(v, task, wanted.contextLines) && ShownWithin(v, d, budget, left');
      DiffOfUnique(u, v, task, wanted.contextLines);
      ShownUnique(u, c, d, budget, left, left');
    }
  }

  lemma DiffOfUnique(u: string, v: string, task: Task, contextLines: int)
    requires IsDiffOf(u, task, contextLines) && IsDiffOf(v, task, contextLines)
    ensures u == v
  {
    hide UnifiedDiff.IsUnifiedDiff;
    UnifiedDiff.UnifiedDiffUnique(u, v, task.path, task.baseContent, task.headContent, contextLines, task.oldPath);
  }

  lemma ShownUnique(u: string, c: ContentDiff, d: ContentDiff, budget: nat, left: nat, left': nat)
    requires ShownWithin(u, c, budget, left) && ShownWithin(u, d, budget, left')
    ensures c.unifiedDiff == d.unifiedDiff && c.truncated == d.truncated && left == left'
  {
    hide CutText;
  }

  /** What is filled in is carried: a diff that is not marked as truncated is whole and faithful. */
  lemma FilledIsCarried(task: Task, content: ContentDiff, wanted: Wanted, budget: nat, left: nat)
    requires Filled(task, content, wanted, budget, left)
    ensures Carried(task, content, wanted.includeUnified)
  {
    hide UnifiedDiff.IsUnifiedDiff, UnifiedDiff.Faithful, UnifiedDiff.NamesFiles, CutText;
    if wanted.includeUnified && budget > 0 {
      var u :| IsDiffOf(u, task, wanted.contextLines) && ShownWithin(u, content, budget, left);
      UnifiedDiff.UnifiedDiffIsFaithful(
        u, task.path, task.baseContent, task.headContent, wanted.contextLines, task.oldPath);
      DiffNamesFiles(u, task, wanted.contextLines);
    }
  }

  lemma DiffNamesFiles(unified: string, task: Task, contextLines: int)
    requires IsDiffOf(unified, task, contextLines)
    ensures unified != "" && Text.Without(task.path, '\n') && Text.Without(task.oldPath, '\n') ==>
      UnifiedDiff.NamesFiles(unified, task.baseContent, task.headContent, task.path, task.oldPath)
  {
    hide UnifiedDiff.IsUnifiedDiff, UnifiedDiff.NamesFiles;
    if unified != "" && Text.Without(task.path, '\n') && Text.Without(task.oldPath, '\n') {
      UnifiedDiff.PrintedNamesFiles(
        unified, task.path, task.baseContent, task.headContent, contextLines, task.oldPath);
    }
  }

  /** What is shown and what is left never exceed the budget. */
  lemma FilledFits(task: Task, content: ContentDiff, wanted: Wanted, budget: nat, left: nat)
    requires Filled(task, content, wanted, budget, left)
    ensures DiffBytes(content) + left <= budget
  {
    hide UnifiedDiff.IsUnifiedDiff, CutText;
    if wanted.includeUnified && budget > 0 {
      var u :| IsDiffOf(u, task, wanted.contextLines) && ShownWithin(u, content, budget, left);
      CutTextFits(u, budget);
    }
  }

  /** A cut diff fits its budget. */
  lemma CutTextFits(unified: string, budget: nat)
    ensures Utf8ByteLength(CutText(unified, budget)) <= budget
  {
    hide Encode, Truncated;
    var marker := Truncated(TRUNCATION_MARKER, budget);
    TruncatedFits(TRUNCATION_MARKER, budget);
    TruncatedFits(unified, budget - Utf8ByteLength(marker));
    EncodeAppend(Truncated(unified, budget - Utf8ByteLength(marker)), marker);
  }

  /**
   A cut diff is the longest whole-character prefix that fits before the marker: a diff starts with a
   dash, so the decoder's byte order mark never plays a part.
   */
  lemma CutTextKeepsLongest(unified: string, filePath: string, oldText: string, newText: string, contextLines: int,
                            oldPath: string, budget: nat)
    requires UnifiedDiff.IsUnifiedDiff(unified, filePath, oldText, newText, contextLines, oldPath)
    ensures var marker := Fit(TRUNCATION_MARKER, budget);
            CutText(unified, budget) == Fit(unified, budget - Utf8ByteLength(marker)) + marker
  {
    hide UnifiedDiff.IsUnifiedDiff, Encode, Fit, Truncated;
    UnifiedDiff.StartsWithDash(unified, filePath, oldText, newText, contextLines, oldPath);
    assert TRUNCATION_MARKER[0] == '\n';
    UnmarkedKeepsLongest(TRUNCATION_MARKER, budget);
    UnmarkedKeepsLongest(unified, budget - Utf8ByteLength(Fit(TRUNCATION_MARKER, budget)));
  }

  /** As much of a diff as the budget allows, ending in as much of the marker as it allows. */
  method CutDiff(unified: string, remaining: nat) returns (text: string)
    ensures text == CutText(unified, remaining)
    ensures Utf8ByteLength(text) <= remaining
  {
    hide Encode, Truncated, Fit, CutsTried, StripByteOrderMark;
    CutTextFits(unified, remaining);
    var marker, _, _ := TruncateToUtf8Bytes(TRUNCATION_MARKER, remaining);
    var kept, _, _ := TruncateToUtf8Bytes(unified, remaining - Utf8ByteLength(marker));
    text := kept + marker;
  }

  /** Computes one deferred diff within the remaining budget. */
  method FillOne(deferred: Deferred, wanted: Wanted, remaining0: nat) returns (remaining: nat, cut: bool)
    requires deferred.change.content == BLANK
    modifies deferred.change
    ensures Filled(deferred.task, deferred.change.content, wanted, remaining0, remaining)
    ensures cut == deferred.change.content.truncated
  {
    hide UnifiedDiff.IsUnifiedDiff, UnifiedDiff.Faithful, CutText;
    var task, change := deferred.task, deferred.change;
    remaining, cut := remaining0, false;
    if !wanted.includeUnified || remaining == 0 {
      var _, additions, deletions := LineDiff.ComputeLineDiff(task.baseContent, task.headContent);
      change.content := change.content.(additions := additions, deletions := deletions);
      if wanted.includeUnified {
        change.content := change.content.(truncated := true);
        cut := true;
      }
      return;
    }
    var unified, additions, deletions := UnifiedDiff.FormatUnifiedDiff(
      task.path, task.baseContent, task.headContent, wanted.contextLines, task.oldPath);
    if |unified| > 0 {
      var diffBytes := Utf8ByteLength(unified);
      if diffBytes <= remaining {
        change.content := change.content.(unifiedDiff := Some(unified));
        remaining := remaining - diffBytes;
      } else {
        var text := CutDiff(unified, remaining);
        change.content := change.content.(unifiedDiff := Some(text), truncated := true);
        cut := true;
        remaining := 0;
      }
    }
    change.content := change.content.(additions := additions, deletions := deletions);
    assert ShownWithin(unified, change.content, remaining0, remaining);
  }

  // ----- All line diffs -----

  /** Where the deferred diff of a change is, or -1 if it has none. */
  ghost function Slot(deferred: seq<Deferred>, change: DocumentChange): (j: int)
    ensures -1 <= j < |deferred|
    ensures j >= 0 ==> deferred[j].change == change
    ensures j < 0 ==> forall l :: 0 <= l < |deferred| ==> deferred[l].change != change
  {
    if l :| 0 <= l < |deferred| && deferred[l].change == change then l else -1
  }

  /** One change when the first `k` deferred diffs are done: filled in, or still blank. */
  ghost predicate Progress(deferred: seq<Deferred>, change: DocumentChange, content: ContentDiff, wanted: Wanted,
                           budgets: seq<nat>, k: nat)
    requires k < |budgets|
  {
    var j := Slot(deferred, change);
    if 0 <= j < k then Filled(deferred[j].task, content, wanted, budgets[j], budgets[j + 1]) else content == BLANK
  }

  /** The same for every returned change, seen through its view; other deferred diffs use no budget. */
  ghost predicate FilledTo(deferred: seq<Deferred>, returned: seq<DocumentChange>, views: seq<View>, wanted: Wanted,
                           budgets: seq<nat>, k: nat)
  {
    && |views| == |returned| && |budgets| == k + 1 && k <= |deferred|
    && (forall i :: 0 <= i < |returned| ==> Progress(deferred, returned[i], views[i].content, wanted, budgets, k))
    && (forall j :: 0 <= j < k && deferred[j].change !in returned ==> budgets[j + 1] == budgets[j])
  }

  /** Some view shows a truncated diff. */
  ghost predicate AnyTruncated(views: seq<View>) {
    exists i :: 0 <= i < |views| && views[i].content.truncated
  }

  /** Nothing to do for a deferred diff whose change is not returned. */
  lemma SkipStep(deferred: seq<Deferred>, returned: seq<DocumentChange>, views: seq<View>, wanted: Wanted,
                 budgets: seq<nat>, k: nat)
    requires k < |deferred| && deferred[k].change !in returned
    requires FilledTo(deferred, returned, views, wanted, budgets, k)
    ensures FilledTo(deferred, returned, views, wanted, budgets + [budgets[k]], k + 1)
  {
    hide Filled;
    forall i | 0 <= i < |returned|
      ensures Progress(deferred, returned[i], views[i].content, wanted, budgets + [budgets[k]], k + 1)
    {
      assert Progress(deferred, returned[i], views[i].content, wanted, budgets, k);
      assert Slot(deferred, returned[i]) != k;
    }
  }

  /** The change at `i` was blank before its diff is filled in. */
  lemma BlankBefore(deferred: seq<Deferred>, returned: seq<DocumentChange>, views: seq<View>, wanted: Wanted,
                    budgets: seq<nat>, k: nat, i: nat)
    requires OnePerChange(deferred) && k < |deferred| && i < |returned| && returned[i] == deferred[k].change
    requires FilledTo(deferred, returned, views, wanted, budgets, k)
    ensures Slot(deferred, returned[i]) == k && views[i].content == BLANK
  {
    hide Filled;
    assert Progress(deferred, returned[i], views[i].content, wanted, budgets, k);
  }

  /** Filling in one change and no other finishes one more deferred diff. */
  lemma FillStep(deferred: seq<Deferred>, returned: seq<DocumentChange>, views: seq<View>, wanted: Wanted,
                 budgets: seq<nat>, k: nat, i: nat, v: View, left: nat)
    requires Distinct(returned) && k < |deferred| && i < |returned| && Slot(deferred, returned[i]) == k
    requires FilledTo(deferred, returned, views, wanted, budgets, k)
    requires Filled(deferred[k].task, v.content, wanted, budgets[k], left)
    ensures FilledTo(deferred, returned, views[i := v], wanted, budgets + [left], k + 1)
  {
    hide Filled;
    forall l | 0 <= l < |returned|
      ensures Progress(deferred, returned[l], views[i := v][l].content, wanted, budgets + [left], k + 1)
    {
      assert Progress(deferred, returned[l], views[l].content, wanted, budgets, k);
      assert l != i ==> returned[l] != returned[i];
      assert l != i ==> Slot(deferred, returned[l]) != k;
    }
  }

  lemma TruncatedUpdate(views: seq<View>, i: nat, v: View)
    requires i < |views| && !views[i].content.truncated
    ensures AnyTruncated(views[i := v]) <==> AnyTruncated(views) || v.content.truncated
  {
    var after := views[i := v];
    if AnyTruncated(views) {
      var j :| 0 <= j < |views| && views[j].content.truncated;
      assert after[j].content.truncated;
    }
    if v.content.truncated {
      assert after[i].content.truncated;
    }
  }

  /**
   Computes the deferred diffs of the returned changes, in order, until the budget is used up.
   `budgets` is what is left of it before each deferred diff and at the end.
   */
  method FillDiffs(deferred: seq<Deferred>, returned: seq<DocumentChange>, wanted: Wanted, maxDiffBytes: nat)
    returns (cut: bool, ghost budgets: seq<nat>)
    requires Distinct(returned) && OnePerChange(deferred)
    requires forall i :: 0 <= i < |returned| ==> returned[i].content == BLANK
    modifies returned
    ensures FilledTo(deferred, returned, Views(returned), wanted, budgets, |deferred|) && budgets[0] == maxDiffBytes
    ensures TotalBytes(Views(returned)) <= maxDiffBytes
    ensures cut <==> AnyTruncated(Views(returned))
  {
    hide Filled, OnePerChange, ShownWithin, AnyTruncated, TotalBytes;
    var remaining := maxDiffBytes;
    cut, budgets := false, [maxDiffBytes];
    ghost var views := Views(returned);
    TotalBlank(views);
    NothingFilled(deferred, returned, views, wanted, maxDiffBytes);
    NoneTruncated(views);
    for k := 0 to |deferred|
      invariant views == Views(returned)
      invariant FilledTo(deferred, returned, views, wanted, budgets, k)
      invariant budgets[0] == maxDiffBytes && budgets[k] == remaining
      invariant TotalBytes(views) + remaining <= maxDiffBytes
      invariant cut <==> AnyTruncated(views)
    {
      var change := deferred[k].change;
      if change in returned {
        ghost var i :| 0 <= i < |returned| && returned[i] == change;
        BlankBefore(deferred, returned, views, wanted, budgets, k, i);
        var left, oneCut := FillOne(deferred[k], wanted, remaining);
        ghost var v := View(change.info, change.content);
        FilledFits(deferred[k].task, v.content, wanted, remaining, left);
        FillStep(deferred, returned, views, wanted, budgets, k, i, v, left);
        TotalUpdate(views, i, v);
        TruncatedUpdate(views, i, v);
        assert Views(returned) == views[i := v];
        views := views[i := v];
        budgets := budgets + [left];
        remaining := left;
        cut := cut || oneCut;
      } else {
        SkipStep(deferred, returned, views, wanted, budgets, k);
        budgets := budgets + [remaining];
      }
    }
  }

  lemma NoneTruncated(views: seq<View>)
    requires forall i :: 0 <= i < |views| ==> views[i].content == BLANK
    ensures !AnyTruncated(views)
  {
  }

  lemma NothingFilled(deferred: seq<Deferred>, returned: seq<DocumentChange>, views: seq<View>, wanted: Wanted,
                      maxDiffBytes: nat)
    requires |views| == |returned| && forall i :: 0 <= i < |views| ==> views[i].content == BLANK
    ensures FilledTo(deferred, returned, views, wanted, [maxDiffBytes], 0)
  {
  }
}
