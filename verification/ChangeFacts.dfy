/**
 What a change says, told from the leaves with its document's id in the two revisions and from their
 texts, and in which order the changes come.
 */
module ChangeFacts {
  import opened Wrappers
  import opened Leaves
  import opened Changes

  /** The leaf with an id, if there is one. */
  ghost predicate IsLeafOf(leaf: Option<Leaf>, leaves: seq<Leaf>, id: string) {
    match leaf
    case None => !HasId(leaves, id)
    case Some(l) => l in leaves && l.id == id
  }

  /** The text of a Markdown leaf; nothing without a leaf or without a text at its path. */
  function TextOf(leaf: Option<Leaf>, documents: Documents): string {
    if leaf.Some? && leaf.value.Markdown? && leaf.value.path in documents then documents[leaf.value.path] else ""
  }

  predicate BothMarkdown(b: Option<Leaf>, h: Option<Leaf>) {
    b.Some? && h.Some? && b.value.Markdown? && h.value.Markdown?
  }

  /** Two leaves of one document hold different content: another kind, another digest, or another text. */
  predicate Differ(b: Leaf, h: Leaf, base: Documents, head: Documents) {
    || b.Markdown? != h.Markdown?
    || (b.Pdf? && h.Pdf? && b.sha256 != h.sha256)
    || (b.Markdown? && h.Markdown? &&
        (b.contentSha256 != h.contentSha256 || TextOf(Some(b), base) != TextOf(Some(h), head)))
  }

  predicate SaysPlace(info: ChangeInfo, b: Option<Leaf>, h: Option<Leaf>)
    requires b.Some? || h.Some?
  {
    var leaf := if h.Some? then h.value else b.value;
    && info.documentId == leaf.id
    && info.kind == (if leaf.Markdown? then MarkdownKind else PdfKind)
    && info.path == (if leaf.Markdown? then Some(leaf.path) else None)
    && info.previousPath == (if BothMarkdown(b, h) && b.value.path != h.value.path then Some(b.value.path) else None)
    && info.pathChanged == (BothMarkdown(b, h) && b.value.path != h.value.path)
    && info.currentPosition == (if h.Some? then Some(h.value.position) else None)
    && info.previousPosition == (if b.Some? then Some(b.value.position) else None)
    && info.orderChanged == (b.Some? && h.Some? && b.value.position != h.value.position)
  }

  predicate SaysTitle(info: ChangeInfo, b: Option<Leaf>, h: Option<Leaf>)
    requires b.Some? || h.Some?
  {
    && info.currentTitle == (if h.Some? then h.value.title else b.value.title)
    && info.previousTitle == (if b.Some? then Some(b.value.title) else None)
    && info.titleChanged == (b.Some? && h.Some? && b.value.title != h.value.title)
  }

  /** Digests are reported of one document's one kind; not across a change of kind. */
  predicate SaysDigests(info: ChangeInfo, b: Option<Leaf>, h: Option<Leaf>)
    requires b.Some? || h.Some?
  {
    && info.currentSha256 ==
       (if h.None? || (b.Some? && b.value.Markdown? != h.value.Markdown?) then None
        else Some(if h.value.Markdown? then h.value.contentSha256 else h.value.sha256))
    && info.previousSha256 ==
       (if b.None? || (h.Some? && b.value.Markdown? != h.value.Markdown?) then None
        else Some(if b.value.Markdown? then b.value.contentSha256 else b.value.sha256))
  }

  predicate SaysClass(info: ChangeInfo, b: Option<Leaf>, h: Option<Leaf>, base: Documents, head: Documents)
    requires b.Some? || h.Some?
  {
    && info.addition == b.None? && info.removal == h.None?
    && info.contentChanged == (b.None? || h.None? || Differ(b.value, h.value, base, head))
    && info.changeType ==
       (if b.None? then Added else if h.None? then Removed
        else if info.contentChanged || info.titleChanged || info.orderChanged || info.pathChanged then Modified
        else Unchanged)
  }

  predicate AreFactsOf(facts: Option<PdfFacts>, leaf: Option<Leaf>) {
    && facts.Some? == (leaf.Some? && leaf.value.Pdf?)
    && (facts.Some? ==>
          && facts.value.byteSize == leaf.value.byteSize && facts.value.pageCount == leaf.value.pageCount
          && facts.value.pageWidth == leaf.value.pageWidth && facts.value.pageHeight == leaf.value.pageHeight)
  }

  /** PDF details are reported unless the document is or was Markdown. */
  predicate SaysPdf(info: ChangeInfo, b: Option<Leaf>, h: Option<Leaf>) {
    && info.pdf.Some? == ((b.Some? ==> b.value.Pdf?) && (h.Some? ==> h.value.Pdf?))
    && (info.pdf.Some? ==> AreFactsOf(info.pdf.value.previous, b) && AreFactsOf(info.pdf.value.current, h))
  }

  predicate DescribesInfo(info: ChangeInfo, b: Option<Leaf>, h: Option<Leaf>, base: Documents, head: Documents) {
    && (b.Some? || h.Some?)
    && SaysPlace(info, b, h) && SaysTitle(info, b, h) && SaysDigests(info, b, h)
    && SaysClass(info, b, h, base, head) && SaysPdf(info, b, h)
  }

  /** A line diff is due of an added, a removed, and a changed Markdown document. */
  predicate DiffIsDue(b: Option<Leaf>, h: Option<Leaf>, base: Documents, head: Documents)
    requires b.Some? || h.Some?
  {
    if b.None? then h.value.Markdown?
    else if h.None? then b.value.Markdown?
    else b.value.Markdown? && h.value.Markdown? && Differ(b.value, h.value, base, head)
  }

  /**
   The diff leads from the base leaf's path and text to the head leaf's; a missing side has the path of
   the other and no text.
   */
  predicate IsTaskFor(task: Task, b: Option<Leaf>, h: Option<Leaf>, base: Documents, head: Documents)
    requires (b.Some? || h.Some?) && DiffIsDue(b, h, base, head)
  {
    && task.path == (if h.Some? then h.value.path else b.value.path)
    && task.oldPath == (if b.Some? then b.value.path else h.value.path)
    && task.baseContent == TextOf(b, base) && task.headContent == TextOf(h, head)
  }

  predicate Describes(item: Item, b: Option<Leaf>, h: Option<Leaf>, base: Documents, head: Documents) {
    && DescribesInfo(item.info, b, h, base, head)
    && item.task.Some? == DiffIsDue(b, h, base, head)
    && (item.task.Some? ==> IsTaskFor(item.task.value, b, h, base, head))
  }

  /** The leaves with the item's id in the two revisions are the ones it describes. */
  ghost predicate AreLeavesOf(b: Option<Leaf>, h: Option<Leaf>, base: Revision, head: Revision, id: string) {
    IsLeafOf(b, base.leaves, id) && IsLeafOf(h, head.leaves, id)
  }

  ghost predicate IsDescribed(item: Item, base: Revision, head: Revision) {
    exists b, h ::
      AreLeavesOf(b, h, base, head, item.info.documentId) && Describes(item, b, h, base.documents, head.documents)
  }

  /** With unique ids there is only one leaf of an id. */
  lemma LeafOfUnique(a: Option<Leaf>, b: Option<Leaf>, leaves: seq<Leaf>, id: string)
    requires UniqueIds(leaves) && IsLeafOf(a, leaves, id) && IsLeafOf(b, leaves, id)
    ensures a == b
  {
    if a.Some? && b.Some? {
      var i :| 0 <= i < |leaves| && leaves[i] == a.value;
      var j :| 0 <= j < |leaves| && leaves[j] == b.value;
    } else {
      assert a.Some? ==> HasId(leaves, id);
      assert b.Some? ==> HasId(leaves, id);
    }
  }

  lemma AddedDescribed(h: Leaf, base: Documents, head: Documents)
    ensures Describes(AddedItem(h, head), None, Some(h), base, head)
  {
  }

  lemma RemovedDescribed(b: Leaf, base: Documents, head: Documents)
    ensures Describes(RemovedItem(b, base), Some(b), None, base, head)
  {
  }

  lemma ComparedDescribed(b: Leaf, h: Leaf, base: Documents, head: Documents)
    requires b.id == h.id
    ensures Describes(ComparedItem(b, h, base, head), Some(b), Some(h), base, head)
  {
  }

  lemma HeadItemDescribed(base: Revision, head: Revision, j: nat)
    requires j < |head.leaves|
    ensures IsDescribed(HeadItem(base, head, head.leaves[j]), base, head)
  {
    hide AddedItem, ComparedItem, Describes;
    var h := head.leaves[j];
    var item := HeadItem(base, head, h);
    ByIdFinds(base.leaves, h.id);
    assert HasId(head.leaves, h.id);
    match ById(base.leaves, h.id)
    case None =>
      AddedDescribed(h, base.documents, head.documents);
      AddedId(h, head.documents);
      assert AreLeavesOf(None, Some(h), base, head, item.info.documentId);
    case Some(b) =>
      ComparedDescribed(b, h, base.documents, head.documents);
      ComparedId(b, h, base.documents, head.documents);
      assert AreLeavesOf(Some(b), Some(h), base, head, item.info.documentId);
  }

  lemma AddedId(h: Leaf, head: Documents)
    ensures AddedItem(h, head).info.documentId == h.id
  {
  }

  lemma ComparedId(b: Leaf, h: Leaf, base: Documents, head: Documents)
    ensures ComparedItem(b, h, base, head).info.documentId == h.id
  {
  }

  lemma RemovedItemDescribed(base: Revision, head: Revision, j: nat)
    requires j < |base.leaves| && !HasId(head.leaves, base.leaves[j].id)
    ensures IsDescribed(RemovedItem(base.leaves[j], base.documents), base, head)
  {
    var b := base.leaves[j];
    RemovedDescribed(b, base.documents, head.documents);
    RemovedItemId(b, base.documents);
    hide RemovedItem, Describes;
    assert b in base.leaves;
    assert AreLeavesOf(Some(b), None, base, head, RemovedItem(b, base.documents).info.documentId);
  }

  lemma RemovedDescribedAt(base: Revision, head: Revision, k: nat)
    requires k < |RemovedItems(base, head, |base.leaves|)|
    ensures IsDescribed(RemovedItems(base, head, |base.leaves|)[k], base, head)
  {
    var removed := RemovedItems(base, head, |base.leaves|);
    RemovedItemsAre(base, head, |base.leaves|);
    hide RemovedItems, IsDescribed, RemovedItem;
    assert removed[k] in removed;
    var j :| 0 <= j < |base.leaves| && !HasId(head.leaves, base.leaves[j].id)
          && removed[k] == RemovedItem(base.leaves[j], base.documents);
    RemovedItemDescribed(base, head, j);
  }

  /** Every item describes the leaves of its document, whatever the revisions. */
  lemma AllDescribed(base: Revision, head: Revision)
    ensures forall k :: 0 <= k < |AllItems(base, head)| ==> IsDescribed(AllItems(base, head)[k], base, head)
  {
    var heads := HeadItems(base, head, |head.leaves|);
    hide HeadItems, HeadItem, RemovedItems, IsDescribed;
    forall k | 0 <= k < |AllItems(base, head)|
      ensures IsDescribed(AllItems(base, head)[k], base, head)
    {
      if k < |heads| {
        HeadItemAt(base, head, |head.leaves|, k);
        HeadItemDescribed(base, head, k);
      } else {
        RemovedDescribedAt(base, head, k - |heads|);
      }
    }
  }

  // ----- What the summary counts -----

  function Flags(items: seq<Item>, tally: Tally): (flags: seq<bool>)
    ensures |flags| == |items| && forall k :: 0 <= k < |items| ==> flags[k] == Counts(tally, items[k].info)
  {
    seq(|items|, k requires 0 <= k < |items| => Counts(tally, items[k].info))
  }

  function Places(flags: seq<bool>): set<nat> {
    set k: nat | k < |flags| && flags[k]
  }

  lemma PlacesSnoc(flags: seq<bool>, flag: bool)
    ensures |Places(flags + [flag])| == |Places(flags)| + if flag then 1 else 0
  {
    assert Places(flags + [flag]) == Places(flags) + if flag then {|flags|} else {};
  }

  /** A count is the number of places where its class stands. */
  lemma {:induction false} CountIsPlaces(items: seq<Item>, tally: Tally)
    ensures Count(items, tally) == |Places(Flags(items, tally))|
  {
    hide Counts;
    if items == [] {
      assert Places(Flags(items, tally)) == {};
    } else {
      var last := |items| - 1;
      var flag := Counts(tally, items[last].info);
      CountIsPlaces(items[..last], tally);
      PlacesSnoc(Flags(items[..last], tally), flag);
      assert Flags(items, tally) == Flags(items[..last], tally) + [flag];
    }
  }

  /** Each number of the summary is that of the changes of its class, of those moved, or of those retitled. */
  lemma SummaryCounts(items: seq<Item>)
    ensures var s := Summarize(items);
      && s.added == |set k: nat | k < |items| && items[k].info.changeType == Added|
      && s.removed == |set k: nat | k < |items| && items[k].info.changeType == Removed|
      && s.modified == |set k: nat | k < |items| && items[k].info.changeType == Modified|
      && s.reordered == |set k: nat | k < |items| && items[k].info.orderChanged|
      && s.titlesChanged == |set k: nat | k < |items| && items[k].info.titleChanged|
  {
    CountIsPlaces(items, OfType(Added));
    CountIsPlaces(items, OfType(Removed));
    CountIsPlaces(items, OfType(Modified));
    CountIsPlaces(items, Reordered);
    CountIsPlaces(items, Retitled);
    assert Places(Flags(items, OfType(Added))) == set k: nat | k < |items| && items[k].info.changeType == Added;
    assert Places(Flags(items, OfType(Removed))) == set k: nat | k < |items| && items[k].info.changeType == Removed;
    assert Places(Flags(items, OfType(Modified))) == set k: nat | k < |items| && items[k].info.changeType == Modified;
    assert Places(Flags(items, Reordered)) == set k: nat | k < |items| && items[k].info.orderChanged;
    assert Places(Flags(items, Retitled)) == set k: nat | k < |items| && items[k].info.titleChanged;
  }

  // ----- The order of the changes -----

  /** The ids among the first `n` that are not in another list, in order. */
  function MissingIds(ids: seq<string>, present: seq<string>, n: nat): seq<string>
    requires n <= |ids|
  {
    if n == 0 then []
    else MissingIds(ids, present, n - 1) + if ids[n - 1] in present then [] else [ids[n - 1]]
  }

  function ItemIds(items: seq<Item>): (ids: seq<string>)
    ensures |ids| == |items| && forall i :: 0 <= i < |items| ==> ids[i] == items[i].info.documentId
  {
    seq(|items|, i requires 0 <= i < |items| => items[i].info.documentId)
  }

  /** The head documents come first, in order, then the base documents that are gone, in order. */
  lemma ChangesInOrder(base: Revision, head: Revision)
    ensures ItemIds(AllItems(base, head))
         == Ids(head.leaves) + MissingIds(Ids(base.leaves), Ids(head.leaves), |base.leaves|)
  {
    var heads := HeadItems(base, head, |head.leaves|);
    RemovedInOrder(base, head, |base.leaves|);
    assert ItemIds(heads) == Ids(head.leaves) by {
      forall j | 0 <= j < |heads|
        ensures ItemIds(heads)[j] == Ids(head.leaves)[j]
      {
        HeadItemId(base, head, j);
      }
    }
  }

  lemma {:induction false} RemovedInOrder(base: Revision, head: Revision, n: nat)
    requires n <= |base.leaves|
    ensures ItemIds(RemovedItems(base, head, n)) == MissingIds(Ids(base.leaves), Ids(head.leaves), n)
  {
    hide RemovedItem;
    if n > 0 {
      RemovedInOrder(base, head, n - 1);
      var leaf := base.leaves[n - 1];
      RemovedItemId(leaf, base.documents);
      IdsHave(head.leaves, leaf.id);
    }
  }

  lemma IdsHave(leaves: seq<Leaf>, id: string)
    ensures id in Ids(leaves) <==> HasId(leaves, id)
  {
    if HasId(leaves, id) {
      var i :| 0 <= i < |leaves| && leaves[i].id == id;
      assert Ids(leaves)[i] == id;
    }
  }
}
