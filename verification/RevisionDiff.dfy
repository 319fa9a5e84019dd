/**
 The bounded revision diff: changes are collected, cut to the file limit, given their line diffs under
 a byte budget, and printed into one text under the same budget.
 */
module RevisionDiff {
  import opened Wrappers
  import opened Leaves
  import opened Changes
  import opened ChangeFacts
  import opened RevisionChanges
  import opened DiffBudget
  import opened Utf8
  import opened Text
  import Decimal

  const MAX_DIFF_BYTES: int := 512 * 1024
  const MAX_DIFF_FILES: int := 50

  // ----- The text of one change -----

  function Shown(s: Option<string>): string {
    match s case None => "undefined" case Some(text) => text
  }

  function ShownPosition(position: Option<int>): string {
    match position
    case None => "undefined"
    case Some(p) => if p < 0 then "-" + Decimal.Show(-p) else Decimal.Show(p)
  }

  function MarkdownHeader(info: ChangeInfo, path: string): string {
    var fromPath := if info.previousPath.Some? then info.previousPath.value else path;
    "diff --git a/" + fromPath + " b/" + path + "\n" +
    if info.addition then "new file mode 100644\n"
    else if info.removal then "deleted file mode 100644\n"
    else if info.pathChanged then
      "rename from " + fromPath + "\nrename to " + path + "\n" +
      (if info.contentChanged then "" else "similarity index 100%\n")
    else ""
  }

  function PdfHeader(info: ChangeInfo): string {
    var leafPath := "documents/document-" + info.documentId + ".pdf";
    var previousTitle := if info.previousTitle.Some? then info.previousTitle.value else info.currentTitle;
    "diff --git a/" + leafPath + " b/" + leafPath + "\n" +
    if info.addition then "new binary file (PDF: \"" + info.currentTitle + "\")\n"
    else if info.removal then "deleted binary file (PDF: \"" + previousTitle + "\")\n"
    else if info.contentChanged then
      "Binary files differ (PDF: sha256 changed from " + Shown(info.previousSha256) + " to "
      + Shown(info.currentSha256) + ")\n"
    else ""
  }

  /** What is said of a change of title and of position. */
  function Notes(info: ChangeInfo): string {
    (if info.titleChanged
     then "# Title changed: \"" + Shown(info.previousTitle) + "\" -> \"" + info.currentTitle + "\"\n" else "") +
    (if info.orderChanged
     then "# Order changed: position " + ShownPosition(info.previousPosition) + " -> "
          + ShownPosition(info.currentPosition) + "\n" else "")
  }

  function FileHeader(info: ChangeInfo): (header: string)
    ensures header != ""
  {
    (if info.kind == MarkdownKind && info.path.Some? && info.path.value != ""
     then MarkdownHeader(info, info.path.value) else PdfHeader(info)) + Notes(info)
  }

  function PartOf(v: View): (part: string)
    ensures part != ""
  {
    FileHeader(v.info) +
    if v.info.kind == MarkdownKind && v.content.unifiedDiff.Some? then v.content.unifiedDiff.value else ""
  }

  /** The texts of the changes that are not unchanged, in order. */
  function Parts(views: seq<View>): seq<string> {
    if views == [] then []
    else
      var last := |views| - 1;
      Parts(views[..last]) + if views[last].info.changeType == Unchanged then [] else [PartOf(views[last])]
  }

  function JoinedBytes(parts: seq<string>): nat {
    Utf8ByteLength(Join(parts, "\n"))
  }

  lemma JoinedSnoc(parts: seq<string>, part: string)
    ensures JoinedBytes(parts + [part]) ==
      JoinedBytes(parts) + (if parts == [] then 0 else 1) + Utf8ByteLength(part)
  {
    if parts != [] {
      JoinSnoc(parts, part, "\n");
      EncodeAppend(Join(parts, "\n") + "\n", part);
      EncodeAppend(Join(parts, "\n"), "\n");
    } else {
      assert parts + [part] == [part];
    }
  }

  /** More changes never make the joined text shorter. */
  lemma {:induction false} JoinedGrows(views: seq<View>, k: nat)
    requires k <= |views|
    ensures JoinedBytes(Parts(views[..k])) <= JoinedBytes(Parts(views))
    decreases |views|
  {
    if k == |views| {
      assert views[..k] == views;
    } else {
      var last := |views| - 1;
      JoinedGrows(views[..last], k);
      assert views[..last][..k] == views[..k];
      if views[last].info.changeType != Unchanged {
        JoinedSnoc(Parts(views[..last]), PartOf(views[last]));
      } else {
        assert Parts(views[..last]) + [] == Parts(views[..last]);
      }
    }
  }

  /** The piece that still fits when a part does not: part of it and the marker, or part of the marker. */
  function CutPiece(part: string, availableBytes: nat): string {
    var budgetForPart := availableBytes - Utf8ByteLength(TRUNCATION_MARKER);
    if budgetForPart > 0 then Truncated(part, budgetForPart) + TRUNCATION_MARKER
    else Truncated(TRUNCATION_MARKER, availableBytes)
  }

  /** The bytes left for one more part behind others and a separator. */
  function Room(parts: seq<string>, maxDiffBytes: nat): nat {
    var room := maxDiffBytes - JoinedBytes(parts) - if |parts| > 0 then 1 else 0;
    if room > 0 then room else 0
  }

  function CutParts(parts: seq<string>, part: string, maxDiffBytes: nat): seq<string> {
    var room := Room(parts, maxDiffBytes);
    parts + if room == 0 then [] else [CutPiece(part, room)]
  }

  /** All parts joined if they fit; otherwise those that fit, and what still fits of the next one. */
  ghost predicate IsAssembled(text: string, parts: seq<string>, maxDiffBytes: nat) {
    if JoinedBytes(parts) <= maxDiffBytes then text == Join(parts, "\n")
    else exists k :: 0 <= k < |parts| && IsCutAt(text, parts, maxDiffBytes, k)
  }

  ghost predicate IsCutAt(text: string, parts: seq<string>, maxDiffBytes: nat, k: nat)
    requires k < |parts|
  {
    && JoinedBytes(parts[..k]) <= maxDiffBytes < JoinedBytes(parts[..k] + [parts[k]])
    && text == Join(CutParts(parts[..k], parts[k], maxDiffBytes), "\n")
  }

  lemma HeaderUnmarked(info: ChangeInfo)
    ensures FileHeader(info)[0] == 'd'
  {
    hide MarkdownHeader, PdfHeader, Notes;
    if info.kind == MarkdownKind && info.path.Some? && info.path.value != "" {
      MarkdownHeaderStarts(info, info.path.value);
    } else {
      PdfHeaderStarts(info);
    }
  }

  lemma MarkdownHeaderStarts(info: ChangeInfo, path: string)
    ensures MarkdownHeader(info, path) != "" && MarkdownHeader(info, path)[0] == 'd'
  {
  }

  lemma PdfHeaderStarts(info: ChangeInfo)
    ensures PdfHeader(info) != "" && PdfHeader(info)[0] == 'd'
  {
  }

  /** A cut part keeps the longest whole-character prefix that fits: every part starts with `diff`. */
  lemma CutPieceKeepsLongest(v: View, availableBytes: nat)
    ensures var budgetForPart := availableBytes - Utf8ByteLength(TRUNCATION_MARKER);
            CutPiece(PartOf(v), availableBytes) ==
              if budgetForPart > 0 then Fit(PartOf(v), budgetForPart) + TRUNCATION_MARKER
              else Fit(TRUNCATION_MARKER, availableBytes)
  {
    hide FileHeader, Encode, Fit, Truncated;
    HeaderUnmarked(v.info);
    assert PartOf(v)[0] == FileHeader(v.info)[0];
    assert TRUNCATION_MARKER[0] == '\n';
    UnmarkedKeepsLongest(PartOf(v), availableBytes - Utf8ByteLength(TRUNCATION_MARKER));
    UnmarkedKeepsLongest(TRUNCATION_MARKER, availableBytes);
  }

  method LastPiece(part: string, availableBytes: nat) returns (piece: string)
    ensures piece == CutPiece(part, availableBytes)
    ensures Utf8ByteLength(piece) <= availableBytes
  {
    hide Encode, Truncated, Fit, CutsTried;
    var markerBytes := Utf8ByteLength(TRUNCATION_MARKER);
    var budgetForPart: nat := if availableBytes - markerBytes > 0 then availableBytes - markerBytes else 0;
    if budgetForPart > 0 {
      var truncatedPart, _, _ := TruncateToUtf8Bytes(part, budgetForPart);
      TruncatedFits(part, budgetForPart);
      EncodeAppend(truncatedPart, TRUNCATION_MARKER);
      piece := truncatedPart + TRUNCATION_MARKER;
    } else {
      var markerOnly, _, _ := TruncateToUtf8Bytes(TRUNCATION_MARKER, availableBytes);
      piece := markerOnly;
      TruncatedFits(TRUNCATION_MARKER, availableBytes);
    }
  }

  /** Adds one part if it fits, and otherwise whatever piece of it still does. */
  method AddPart(parts0: seq<string>, part: string, totalUnifiedBytes: nat, maxDiffBytes: nat)
    returns (parts: seq<string>, total: nat, cut: bool)
    requires totalUnifiedBytes == JoinedBytes(parts0) <= maxDiffBytes && part != ""
    ensures JoinedBytes(parts) <= maxDiffBytes
    ensures cut <==> JoinedBytes(parts0 + [part]) > maxDiffBytes
    ensures !cut ==> parts == parts0 + [part] && total == JoinedBytes(parts)
    ensures cut ==> parts == CutParts(parts0, part, maxDiffBytes)
  {
    hide CutPiece;
    var partBytes := Utf8ByteLength(part);
    var separatorBytes := if |parts0| > 0 then 1 else 0;
    var room := maxDiffBytes - totalUnifiedBytes - separatorBytes;
    var availableBytes: nat := if room > 0 then room else 0;
    assert availableBytes == Room(parts0, maxDiffBytes);
    JoinedSnoc(parts0, part);
    cut := partBytes > availableBytes;
    if cut {
      parts, total := parts0, totalUnifiedBytes;
      if availableBytes > 0 {
        var piece := LastPiece(part, availableBytes);
        JoinedSnoc(parts0, piece);
        parts := parts0 + [piece];
      } else {
        assert parts0 + [] == parts0;
      }
    } else {
      parts, total := parts0 + [part], totalUnifiedBytes + separatorBytes + partBytes;
    }
  }

  /** Joins the texts of the changes under the byte limit; it is cut exactly when they do not all fit. */
  method AssembleText(views: seq<View>, maxDiffBytes: nat) returns (text: string, cut: bool)
    ensures IsAssembled(text, Parts(views), maxDiffBytes)
    ensures Utf8ByteLength(text) <= maxDiffBytes
    ensures cut <==> JoinedBytes(Parts(views)) > maxDiffBytes
  {
    hide Parts, PartOf, CutParts, JoinedBytes;
    var parts: seq<string> := [];
    var totalUnifiedBytes: nat := 0;
    NoParts();
    for k := 0 to |views|
      invariant parts == Parts(views[..k])
      invariant totalUnifiedBytes == JoinedBytes(parts) <= maxDiffBytes
    {
      PartsStep(views, k);
      if views[k].info.changeType != Unchanged {
        ghost var parts0 := parts;
        parts, totalUnifiedBytes, cut := AddPart(parts, PartOf(views[k]), totalUnifiedBytes, maxDiffBytes);
        if cut {
          JoinedGrows(views, k + 1);
          PartsPrefix(views, k + 1);
          ghost var all := Parts(views);
          assert all[..|parts0| + 1] == parts0 + [PartOf(views[k])];
          assert all[..|parts0|] == parts0 && all[|parts0|] == PartOf(views[k]);
          assert IsCutAt(Join(parts, "\n"), all, maxDiffBytes, |parts0|);
          JoinedIs(parts);
          return Join(parts, "\n"), true;
        }
      }
    }
    assert views[..|views|] == views;
    JoinedIs(parts);
    text, cut := Join(parts, "\n"), false;
  }

  lemma JoinedIs(parts: seq<string>)
    ensures JoinedBytes(parts) == Utf8ByteLength(Join(parts, "\n"))
  {
  }

  lemma NoParts()
    ensures Parts([]) == [] && JoinedBytes([]) == 0
  {
  }

  /** The parts of the first changes come first. */
  lemma {:induction false} PartsPrefix(views: seq<View>, k: nat)
    requires k <= |views|
    ensures |Parts(views[..k])| <= |Parts(views)| && Parts(views)[..|Parts(views[..k])|] == Parts(views[..k])
    decreases |views|
  {
    if k == |views| {
      assert views[..k] == views;
    } else {
      var last := |views| - 1;
      PartsPrefix(views[..last], k);
      assert views[..last][..k] == views[..k];
    }
  }

  /** The place of the cut, and so the text, is determined by the parts and the limit. */
  lemma AssembledUnique(s: string, t: string, views: seq<View>, maxDiffBytes: nat)
    requires IsAssembled(s, Parts(views), maxDiffBytes) && IsAssembled(t, Parts(views), maxDiffBytes)
    ensures s == t
  {
    hide Parts, CutParts, JoinedBytes;
    var parts := Parts(views);
    if JoinedBytes(parts) > maxDiffBytes {
      var i :| 0 <= i < |parts| && IsCutAt(s, parts, maxDiffBytes, i);
      var j :| 0 <= j < |parts| && IsCutAt(t, parts, maxDiffBytes, j);
      assert parts[..i] + [parts[i]] == parts[..i + 1] && parts[..j] + [parts[j]] == parts[..j + 1];
      if i < j { assert parts[..j][..i + 1] == parts[..i + 1]; PrefixShorter(parts[..j], i + 1); }
      if j < i { assert parts[..i][..j + 1] == parts[..j + 1]; PrefixShorter(parts[..i], j + 1); }
    }
  }

  lemma {:induction false} PrefixShorter(parts: seq<string>, k: nat)
    requires k <= |parts|
    ensures JoinedBytes(parts[..k]) <= JoinedBytes(parts)
    decreases |parts|
  {
    hide JoinedBytes;
    if k == |parts| {
      assert parts[..k] == parts;
    } else {
      var last := |parts| - 1;
      PrefixShorter(parts[..last], k);
      assert parts[..last][..k] == parts[..k];
      JoinedSnoc(parts[..last], parts[last]);
      assert parts[..last] + [parts[last]] == parts;
    }
  }

  lemma PartsStep(views: seq<View>, k: nat)
    requires k < |views|
    ensures Parts(views[..k + 1]) ==
      Parts(views[..k]) + if views[k].info.changeType == Unchanged then [] else [PartOf(views[k])]
    ensures Parts(views[..k]) + [] == Parts(views[..k])
  {
    assert views[..k + 1][..k] == views[..k];
  }

  // ----- The whole diff -----

  /** A missing option is its limit, and any other is moved into the range as little as possible. */
  lemma ClampIs(option: Option<int>, limit: int)
    requires limit >= 0
    ensures 0 <= Clamp(option, limit) <= limit
    ensures option.None? ==> Clamp(option, limit) == limit
    ensures option.Some? && 0 <= option.value <= limit ==> Clamp(option, limit) == option.value
    ensures option.Some? && option.value > limit ==> Clamp(option, limit) == limit
    ensures option.Some? && option.value < 0 ==> Clamp(option, limit) == 0
  {
  }

  /** An option clamped to the range from zero to its limit. */
  function Clamp(option: Option<int>, limit: int): nat
    requires limit >= 0
  {
    var wanted := if option.Some? then option.value else limit;
    var capped := if wanted < limit then wanted else limit;
    if capped < 0 then 0 else capped
  }

  datatype Options = Options(includeUnified: Option<bool>, maxDiffBytes: Option<int>, maxFiles: Option<int>,
                             contextLines: Option<int>)
  {
    function ByteLimit(): nat {
      Clamp(maxDiffBytes, MAX_DIFF_BYTES)
    }

    function FileLimit(): nat {
      Clamp(maxFiles, MAX_DIFF_FILES)
    }

    function Wanted(): Wanted {
      DiffBudget.Wanted(includeUnified.None? || includeUnified.value,
                        if contextLines.Some? then contextLines.value else 3)
    }
  }

  datatype TruncationReason = DiffBytesLimit | FileCountLimit

  const REVISION_DIFF_SCHEMA := "signkit-revision-diff-v1"

  /** What a result says of the revision on one side. */
  datatype RevisionRef = RevisionRef(generation: int, commitSha: Option<string>)

  function RefOf(revision: Revision): RevisionRef {
    RevisionRef(revision.generation, revision.commitSha)
  }

  datatype Outcome = Outcome(schema: string, base: RevisionRef, head: RevisionRef, headMessage: Option<string>,
                             changes: seq<DocumentChange>, summary: Summary, totalChanges: nat, unifiedText: string,
                             truncated: bool, truncationReason: Option<TruncationReason>)

  /** Does this change carry what its item calls for? A change without a task stays blank. */
  ghost predicate Carries(item: Item, content: ContentDiff, includeUnified: bool) {
    match item.task
    case None => content == BLANK
    case Some(task) => Carried(task, content, includeUnified)
  }

  /** After filling, every returned change carries what its item calls for. */
  lemma FilledCarries(all: seq<DocumentChange>, items: seq<Item>, returned: seq<DocumentChange>, views: seq<View>,
                      wanted: Wanted, budgets: seq<nat>, k: nat, i: nat)
    requires |all| == |items| && Distinct(all) && k < |all| && i < |returned| && returned[i] == all[k]
    requires FilledTo(PairUp(all, items), returned, views, wanted, budgets, |PairUp(all, items)|)
    ensures Carries(items[k], views[i].content, wanted.includeUnified)
  {
    hide Filled, Carried, PairUp;
    var deferred := PairUp(all, items);
    TasksOfChanges(all, items);
    assert Progress(deferred, returned[i], views[i].content, wanted, budgets, |deferred|);
    var j := Slot(deferred, returned[i]);
    if items[k].task.Some? {
      var d := Deferred(all[k], items[k].task.value);
      var m :| 0 <= m < |deferred| && deferred[m] == d;
      assert j == m;
      FilledIsCarried(d.task, views[i].content, wanted, budgets[j], budgets[j + 1]);
    } else {
      assert j >= 0 ==> HasSource(deferred[j], all, items);
    }
  }

  /** Every change, and those returned after the file limit, with nothing filled in yet. */
  method SelectChanges(base: Revision, head: Revision, maxFiles: nat)
    returns (all: seq<DocumentChange>, returned: seq<DocumentChange>, deferred: seq<Deferred>, summary: Summary)
    ensures fresh(all) && fresh(returned) && Distinct(all) && Distinct(returned)
    ensures |all| == |AllItems(base, head)|
    ensures forall k :: 0 <= k < |all| ==> all[k].info == AllItems(base, head)[k].info
    ensures returned == CutToLimit(all, maxFiles)
    ensures forall i :: 0 <= i < |returned| ==> returned[i].content == BLANK
    ensures deferred == PairUp(all, AllItems(base, head)) && OnePerChange(deferred)
    ensures summary == Summarize(AllItems(base, head))
  {
    all, deferred, summary := CollectChanges(base, head);
    returned := CutToLimit(all, maxFiles);
    CutKeepsRealChanges(all, maxFiles);
    TasksOfChanges(all, AllItems(base, head));
    forall i | 0 <= i < |returned|
      ensures fresh(returned[i]) && returned[i].content == BLANK
    {
      var k :| 0 <= k < |all| && all[k] == returned[i];
    }
  }

  /** The reason reported: the byte limit if anything was cut to it, else the file limit. */
  function ReasonFor(bytesCut: bool, filesCut: bool): Option<TruncationReason> {
    if bytesCut then Some(DiffBytesLimit) else if filesCut then Some(FileCountLimit) else None
  }

  /** Was any diff, or the text of all of them, cut to the byte limit? */
  ghost predicate BytesCut(views: seq<View>, maxDiffBytes: nat) {
    AnyTruncated(views) || JoinedBytes(Parts(views)) > maxDiffBytes
  }

  /** Every returned change carries what its item calls for. */
  ghost predicate AllCarry(items: seq<Item>, all: seq<DocumentChange>, returned: seq<DocumentChange>, views: seq<View>,
                           includeUnified: bool)
  {
    |items| == |all| && |views| == |returned| &&
    forall i, k :: 0 <= i < |returned| && 0 <= k < |all| && returned[i] == all[k] ==>
      Carries(items[k], views[i].content, includeUnified)
  }

  lemma FilledAllCarry(all: seq<DocumentChange>, items: seq<Item>, returned: seq<DocumentChange>, views: seq<View>,
                       wanted: Wanted, budgets: seq<nat>)
    requires |all| == |items| && Distinct(all)
    requires FilledTo(PairUp(all, items), returned, views, wanted, budgets, |PairUp(all, items)|)
    ensures AllCarry(items, all, returned, views, wanted.includeUnified)
  {
    hide Filled, Carried;
    forall i, k | 0 <= i < |returned| && 0 <= k < |all| && returned[i] == all[k]
      ensures Carries(items[k], views[i].content, wanted.includeUnified)
    {
      FilledCarries(all, items, returned, views, wanted, budgets, k, i);
    }
  }

  /** The line diff of a document between the texts of its two leaves, if one is due. */
  ghost predicate ShowsTexts(content: ContentDiff, b: Option<Leaf>, h: Option<Leaf>, base: Documents, head: Documents,
                             includeUnified: bool)
    requires b.Some? || h.Some?
  {
    if DiffIsDue(b, h, base, head)
    then exists task :: IsTaskFor(task, b, h, base, head) && Carried(task, content, includeUnified)
    else content == BLANK
  }

  /** A change says what the two leaves of its document say, and shows the diff between their texts. */
  ghost predicate ShowsDocument(view: View, b: Option<Leaf>, h: Option<Leaf>, base: Revision, head: Revision,
                                includeUnified: bool)
  {
    && AreLeavesOf(b, h, base, head, view.info.documentId)
    && DescribesInfo(view.info, b, h, base.documents, head.documents)
    && ShowsTexts(view.content, b, h, base.documents, head.documents, includeUnified)
  }

  ghost predicate IsShown(view: View, base: Revision, head: Revision, includeUnified: bool) {
    exists b, h :: ShowsDocument(view, b, h, base, head, includeUnified)
  }

  ghost predicate AllShown(views: seq<View>, base: Revision, head: Revision, includeUnified: bool) {
    forall i :: 0 <= i < |views| ==> IsShown(views[i], base, head, includeUnified)
  }

  lemma CarriedIsShown(item: Item, view: View, base: Revision, head: Revision, includeUnified: bool)
    requires IsDescribed(item, base, head) && view.info == item.info && Carries(item, view.content, includeUnified)
    ensures IsShown(view, base, head, includeUnified)
  {
    hide DescribesInfo, Carried, IsTaskFor, AreLeavesOf;
    var b, h :|
      AreLeavesOf(b, h, base, head, item.info.documentId) && Describes(item, b, h, base.documents, head.documents);
    DescribesSome(item.info, b, h, base.documents, head.documents);
    assert ShowsDocument(view, b, h, base, head, includeUnified);
  }

  lemma DescribesSome(info: ChangeInfo, b: Option<Leaf>, h: Option<Leaf>, base: Documents, head: Documents)
    requires DescribesInfo(info, b, h, base, head)
    ensures b.Some? || h.Some?
  {
  }

  /** Every returned change shows its document. */
  lemma ReturnedAreShown(all: seq<DocumentChange>, returned: seq<DocumentChange>, views: seq<View>,
                         base: Revision, head: Revision, includeUnified: bool)
    requires |all| == |AllItems(base, head)| && |views| == |returned|
    requires forall k :: 0 <= k < |all| ==> all[k].info == AllItems(base, head)[k].info
    requires forall i :: 0 <= i < |returned| ==> returned[i] in all && views[i].info == returned[i].info
    requires AllCarry(AllItems(base, head), all, returned, views, includeUnified)
    ensures AllShown(views, base, head, includeUnified)
  {
    hide Carries, IsDescribed, IsShown, AllItems;
    AllDescribed(base, head);
    forall i | 0 <= i < |views|
      ensures IsShown(views[i], base, head, includeUnified)
    {
      assert returned[i] in all;
      var k :| 0 <= k < |all| && all[k] == returned[i];
      CarriedIsShown(AllItems(base, head)[k], views[i], base, head, includeUnified);
    }
  }

  /** The line diffs of all tasks filled in under one budget, in order. */
  ghost predicate FilledUnder(items: seq<Item>, all: seq<DocumentChange>, returned: seq<DocumentChange>,
                              views: seq<View>, wanted: Wanted, maxDiffBytes: nat, budgets: seq<nat>)
  {
    |items| == |all| && FilledTo(PairUp(all, items), returned, views, wanted, budgets, |PairUp(all, items)|)
    && budgets[0] == maxDiffBytes
  }

  /** Fills in the deferred diffs and prints the returned changes, both within the byte limit. */
  method PrintChanges(all: seq<DocumentChange>, returned: seq<DocumentChange>, deferred: seq<Deferred>,
                      ghost items: seq<Item>, wanted: Wanted, maxDiffBytes: nat)
    returns (text: string, bytesCut: bool, ghost budgets: seq<nat>)
    requires |all| == |items| && Distinct(all) && Distinct(returned)
    requires deferred == PairUp(all, items) && OnePerChange(deferred)
    requires forall i :: 0 <= i < |returned| ==> returned[i].content == BLANK
    modifies returned
    ensures FilledUnder(items, all, returned, Views(returned), wanted, maxDiffBytes, budgets)
    ensures AllCarry(items, all, returned, Views(returned), wanted.includeUnified)
    ensures TotalBytes(Views(returned)) <= maxDiffBytes && Utf8ByteLength(text) <= maxDiffBytes
    ensures bytesCut <==> BytesCut(Views(returned), maxDiffBytes)
    ensures IsAssembled(text, Parts(Views(returned)), maxDiffBytes)
  {
    hide Carries, Progress, IsAssembled;
    var diffsCut;
    diffsCut, budgets := FillDiffs(deferred, returned, wanted, maxDiffBytes);
    var views := Views(returned);
    FilledAllCarry(all, items, returned, views, wanted, budgets);
    var textCut;
    text, textCut := AssembleText(views, maxDiffBytes);
    bytesCut := diffsCut || textCut;
  }

  /**
   Generates the diff between two revisions. `all` is every change before the file limit is applied;
   `budgets` is what is left of the byte limit before each line diff and at the end.
   */
  method GenerateRevisionDiff(base: Revision, head: Revision, options: Options)
    returns (r: Outcome, ghost all: seq<DocumentChange>, ghost budgets: seq<nat>)
    ensures fresh(all) && Distinct(all) && |all| == |AllItems(base, head)|
    ensures forall k :: 0 <= k < |all| ==> all[k].info == AllItems(base, head)[k].info
    ensures r.schema == REVISION_DIFF_SCHEMA && r.base == RefOf(base) && r.head == RefOf(head)
    ensures r.headMessage == head.message
    ensures IsCut(r.changes, all, options.FileLimit())
    ensures r.summary == Summarize(AllItems(base, head)) && r.totalChanges == TotalChanges(r.summary)
    ensures FilledUnder(AllItems(base, head), all, r.changes, Views(r.changes), options.Wanted(), options.ByteLimit(),
                        budgets)
    ensures AllCarry(AllItems(base, head), all, r.changes, Views(r.changes), options.Wanted().includeUnified)
    ensures AllShown(Views(r.changes), base, head, options.Wanted().includeUnified)
    ensures TotalBytes(Views(r.changes)) <= options.ByteLimit()
    ensures IsAssembled(r.unifiedText, Parts(Views(r.changes)), options.ByteLimit())
    ensures Utf8ByteLength(r.unifiedText) <= options.ByteLimit()
    ensures r.truncationReason ==
      (if AnyTruncated(Views(r.changes)) || JoinedBytes(Parts(Views(r.changes))) > options.ByteLimit()
       then Some(DiffBytesLimit) else if |all| > options.FileLimit() then Some(FileCountLimit) else None)
    ensures r.truncated <==> r.truncationReason.Some?
    ensures !r.truncated ==> r.changes == all && r.unifiedText == Join(Parts(Views(all)), "\n")
  {
    hide FilledUnder, AllCarry, AllShown, Sooner;
    var allChanges, returned, deferred, summary := SelectChanges(base, head, options.FileLimit());
    all := allChanges;
    var text, bytesCut;
    text, bytesCut, budgets :=
      PrintChanges(allChanges, returned, deferred, AllItems(base, head), options.Wanted(), options.ByteLimit());
    CutIs(allChanges, options.FileLimit());
    ReturnedAreShown(allChanges, returned, Views(returned), base, head, options.Wanted().includeUnified);
    var reason := ReasonFor(bytesCut, |allChanges| > options.FileLimit());
    r := Outcome(REVISION_DIFF_SCHEMA, RefOf(base), RefOf(head), head.message, returned, summary,
                 TotalChanges(summary), text, reason.Some?, reason);
  }
}
