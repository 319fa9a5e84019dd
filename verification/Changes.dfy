/**
 Comparing two document sets: one change per document, its class, and the summary counts. A change to
 Markdown content also names the line diff still to be computed.
 */
module Changes {
  import opened Wrappers
  import opened Leaves

  datatype DocumentKind = MarkdownKind | PdfKind

  datatype ChangeType = Added | Removed | Modified | Unchanged

  datatype PdfFacts = PdfFacts(byteSize: int, pageCount: int, pageWidth: Double, pageHeight: Double)

  /** What is reported of a PDF before and after. */
  datatype PdfDetails = PdfDetails(previous: Option<PdfFacts>, current: Option<PdfFacts>)

  /** Everything about a change that is settled before any line diff. */
  datatype ChangeInfo = ChangeInfo(
    documentId: string, kind: DocumentKind, path: Option<string>, previousPath: Option<string>,
    pathChanged: bool, changeType: ChangeType, addition: bool, removal: bool,
    titleChanged: bool, orderChanged: bool, contentChanged: bool,
    currentTitle: string, previousTitle: Option<string>,
    currentPosition: Option<int>, previousPosition: Option<int>,
    currentSha256: Option<string>, previousSha256: Option<string>, pdf: Option<PdfDetails>)

  /** A line diff put off until the file limit has been applied. */
  datatype Task = Task(path: string, oldPath: string, baseContent: string, headContent: string)

  datatype Item = Item(info: ChangeInfo, task: Option<Task>)

  type Documents = map<string, string>

  function ContentAt(documents: Documents, path: string): string {
    if path in documents then documents[path] else ""
  }

  function KindOf(leaf: Leaf): DocumentKind {
    if leaf.Markdown? then MarkdownKind else PdfKind
  }

  function PathOf(leaf: Leaf): Option<string> {
    if leaf.Markdown? then Some(leaf.path) else None
  }

  function DigestOf(leaf: Leaf): string {
    if leaf.Markdown? then leaf.contentSha256 else leaf.sha256
  }

  function FactsOf(leaf: Leaf): Option<PdfFacts> {
    if leaf.Pdf? then Some(PdfFacts(leaf.byteSize, leaf.pageCount, leaf.pageWidth, leaf.pageHeight)) else None
  }

  function AddedItem(head: Leaf, headDocuments: Documents): Item {
    Item(
      ChangeInfo(head.id, KindOf(head), PathOf(head), None, false, Added, true, false, false, false, true,
                 head.title, None, Some(head.position), None, Some(DigestOf(head)), None,
                 if head.Pdf? then Some(PdfDetails(None, FactsOf(head))) else None),
      if head.Markdown? then Some(Task(head.path, head.path, "", ContentAt(headDocuments, head.path))) else None)
  }

  function RemovedItem(base: Leaf, baseDocuments: Documents): Item {
    Item(
      ChangeInfo(base.id, KindOf(base), PathOf(base), None, false, Removed, false, true, false, false, true,
                 base.title, Some(base.title), None, Some(base.position), None, Some(DigestOf(base)),
                 if base.Pdf? then Some(PdfDetails(FactsOf(base), None)) else None),
      if base.Markdown? then Some(Task(base.path, base.path, ContentAt(baseDocuments, base.path), "")) else None)
  }

  /** Did the content change? A document that changed kind always did. */
  predicate ContentChanged(base: Leaf, head: Leaf, baseDocuments: Documents, headDocuments: Documents) {
    if head.Markdown? && base.Markdown? then
      base.contentSha256 != head.contentSha256
      || ContentAt(baseDocuments, base.path) != ContentAt(headDocuments, head.path)
    else if head.Pdf? && base.Pdf? then base.sha256 != head.sha256
    else true
  }

  function ComparedItem(base: Leaf, head: Leaf, baseDocuments: Documents, headDocuments: Documents): Item {
    var titleChanged := base.title != head.title;
    var orderChanged := base.position != head.position;
    var pathChanged := head.Markdown? && base.Markdown? && base.path != head.path;
    var contentChanged := ContentChanged(base, head, baseDocuments, headDocuments);
    var isUnchanged := !contentChanged && !titleChanged && !orderChanged && !pathChanged;
    var sameKind := head.Markdown? == base.Markdown?;
    Item(
      ChangeInfo(head.id, KindOf(head), PathOf(head), if pathChanged then PathOf(base) else None, pathChanged,
                 if isUnchanged then Unchanged else Modified, false, false,
                 titleChanged, orderChanged, contentChanged,
                 head.title, Some(base.title), Some(head.position), Some(base.position),
                 if sameKind then Some(DigestOf(head)) else None, if sameKind then Some(DigestOf(base)) else None,
                 if head.Pdf? && base.Pdf? then Some(PdfDetails(FactsOf(base), FactsOf(head))) else None),
      if contentChanged && head.Markdown? && base.Markdown? then
        Some(Task(head.path, if pathChanged then base.path else head.path,
                  ContentAt(baseDocuments, base.path), ContentAt(headDocuments, head.path)))
      else None)
  }

  /** One side of a comparison: the leaves of its manifest, none without one, and its Markdown texts. */
  datatype Revision = Revision(leaves: seq<Leaf>, documents: Documents, generation: int, commitSha: Option<string>,
                               message: Option<string>)

  function HeadItem(base: Revision, head: Revision, leaf: Leaf): Item {
    match ById(base.leaves, leaf.id)
    case None => AddedItem(leaf, head.documents)
    case Some(baseLeaf) => ComparedItem(baseLeaf, leaf, base.documents, head.documents)
  }

  /** The changes of the first `n` head documents, in order. */
  function HeadItems(base: Revision, head: Revision, n: nat): (items: seq<Item>)
    requires n <= |head.leaves|
    ensures |items| == n
  {
    if n == 0 then [] else HeadItems(base, head, n - 1) + [HeadItem(base, head, head.leaves[n - 1])]
  }

  /** The removals among the first `n` base leaves: those with no head leaf of the same id. */
  function RemovedItems(base: Revision, head: Revision, n: nat): seq<Item>
    requires n <= |base.leaves|
  {
    if n == 0 then []
    else
      RemovedItems(base, head, n - 1) +
      if HasId(head.leaves, base.leaves[n - 1].id) then []
      else [RemovedItem(base.leaves[n - 1], base.documents)]
  }

  /** Every change between two revisions: head documents in order, then removed base documents. */
  function AllItems(base: Revision, head: Revision): seq<Item> {
    HeadItems(base, head, |head.leaves|) + RemovedItems(base, head, |base.leaves|)
  }

  datatype Summary = Summary(added: nat, removed: nat, modified: nat, reordered: nat, titlesChanged: nat)

  function TotalChanges(s: Summary): nat {
    s.added + s.removed + s.modified
  }

  /** What the summary counts. */
  datatype Tally = OfType(changeType: ChangeType) | Reordered | Retitled

  predicate Counts(tally: Tally, info: ChangeInfo) {
    match tally
    case OfType(t) => info.changeType == t
    case Reordered => info.orderChanged
    case Retitled => info.titleChanged
  }

  function Count(items: seq<Item>, tally: Tally): (n: nat)
    ensures n <= |items|
  {
    if items == [] then 0
    else Count(items[..|items| - 1], tally) + if Counts(tally, items[|items| - 1].info) then 1 else 0
  }

  function CountType(items: seq<Item>, t: ChangeType): nat {
    Count(items, OfType(t))
  }

  function Summarize(items: seq<Item>): Summary {
    Summary(CountType(items, Added), CountType(items, Removed), CountType(items, Modified),
            Count(items, Reordered), Count(items, Retitled))
  }

  // ----- One change for every document -----

  lemma {:induction false} HeadItemAt(base: Revision, head: Revision, n: nat, i: nat)
    requires i < n <= |head.leaves|
    ensures HeadItems(base, head, n)[i] == HeadItem(base, head, head.leaves[i])
  {
    if i < n - 1 {
      HeadItemAt(base, head, n - 1, i);
    }
  }

  /** The removal of each base document that is gone, and of no other. */
  lemma {:induction false} RemovedItemsAre(base: Revision, head: Revision, n: nat)
    requires n <= |base.leaves|
    ensures forall item :: item in RemovedItems(base, head, n) ==>
      exists j :: 0 <= j < n && !HasId(head.leaves, base.leaves[j].id)
               && item == RemovedItem(base.leaves[j], base.documents)
    ensures forall j :: 0 <= j < n && !HasId(head.leaves, base.leaves[j].id) ==>
      RemovedItem(base.leaves[j], base.documents) in RemovedItems(base, head, n)
  {
    if n > 0 {
      RemovedItemsAre(base, head, n - 1);
    }
  }

  ghost predicate DistinctIds(items: seq<Item>) {
    forall i, j :: 0 <= i < j < |items| ==> items[i].info.documentId != items[j].info.documentId
  }

  lemma {:induction false} RemovedIdsUnique(base: Revision, head: Revision, n: nat)
    requires n <= |base.leaves| && UniqueIds(base.leaves)
    ensures DistinctIds(RemovedItems(base, head, n))
  {
    hide RemovedItem;
    if n > 0 {
      var items, before := RemovedItems(base, head, n), RemovedItems(base, head, n - 1);
      RemovedIdsUnique(base, head, n - 1);
      RemovedItemId(base.leaves[n - 1], base.documents);
      forall i, j | 0 <= i < j < |items|
        ensures items[i].info.documentId != items[j].info.documentId
      {
        assert items[i] == before[i];
        RemovedIdsEarlier(base, head, n - 1, i);
        if j < |before| { assert items[j] == before[j]; }
      }
    }
  }

  lemma RemovedItemId(leaf: Leaf, documents: Documents)
    ensures RemovedItem(leaf, documents).info.documentId == leaf.id
  {
  }

  /** A removal among the first base leaves has the id of one of them. */
  lemma {:induction false} RemovedIdsEarlier(base: Revision, head: Revision, n: nat, i: nat)
    requires n <= |base.leaves| && i < |RemovedItems(base, head, n)|
    ensures exists m :: 0 <= m < n && base.leaves[m].id == RemovedItems(base, head, n)[i].info.documentId
  {
    hide RemovedItem;
    var before := RemovedItems(base, head, n - 1);
    RemovedItemId(base.leaves[n - 1], base.documents);
    if i < |before| {
      RemovedIdsEarlier(base, head, n - 1, i);
      assert RemovedItems(base, head, n)[i] == before[i];
    } else {
      assert base.leaves[n - 1].id == RemovedItems(base, head, n)[i].info.documentId;
    }
  }

  lemma HeadItemId(base: Revision, head: Revision, i: nat)
    requires i < |head.leaves|
    ensures HeadItems(base, head, |head.leaves|)[i].info.documentId == head.leaves[i].id
  {
    HeadItemAt(base, head, |head.leaves|, i);
  }

  /** No document is reported twice. */
  lemma ChangesAreDistinct(base: Revision, head: Revision)
    requires UniqueIds(base.leaves) && UniqueIds(head.leaves)
    ensures DistinctIds(AllItems(base, head))
  {
    hide HeadItems, RemovedItems, RemovedItem, HasId;
    var heads, removed := HeadItems(base, head, |head.leaves|), RemovedItems(base, head, |base.leaves|);
    RemovedIdsUnique(base, head, |base.leaves|);
    var items := heads + removed;
    forall i, j | 0 <= i < j < |items|
      ensures items[i].info.documentId != items[j].info.documentId
    {
      if j < |heads| {
        assert items[i] == heads[i] && items[j] == heads[j];
        HeadItemId(base, head, i);
        HeadItemId(base, head, j);
      } else if i < |heads| {
        assert items[i] == heads[i] && items[j] == removed[j - |heads|];
        HeadItemId(base, head, i);
        RemovedIsNoHead(base, head, j - |heads|, i);
      } else {
        assert items[i] == removed[i - |heads|] && items[j] == removed[j - |heads|];
      }
    }
  }

  /** A removal is of no head document. */
  lemma RemovedIsNoHead(base: Revision, head: Revision, j: nat, i: nat)
    requires j < |RemovedItems(base, head, |base.leaves|)| && i < |head.leaves|
    ensures RemovedItems(base, head, |base.leaves|)[j].info.documentId != head.leaves[i].id
  {
    var removed := RemovedItems(base, head, |base.leaves|);
    RemovedItemsAre(base, head, |base.leaves|);
    hide RemovedItems;
    assert removed[j] in removed;
    var m :| 0 <= m < |base.leaves| && !HasId(head.leaves, base.leaves[m].id)
          && removed[j] == RemovedItem(base.leaves[m], base.documents);
  }

  ghost predicate InBoth(base: Revision, head: Revision, id: string, i: int, j: int) {
    0 <= i < |base.leaves| && 0 <= j < |head.leaves| && base.leaves[i].id == id == head.leaves[j].id
  }

  /** The class a document belongs to, from the two revisions alone. */
  ghost predicate RightClass(base: Revision, head: Revision, item: Item) {
    var id := item.info.documentId;
    match item.info.changeType
    case Added => HasId(head.leaves, id) && !HasId(base.leaves, id)
    case Removed => HasId(base.leaves, id) && !HasId(head.leaves, id)
    case Unchanged =>
      exists i, j :: InBoth(base, head, id, i, j) && Same(base, head, base.leaves[i], head.leaves[j])
    case Modified =>
      exists i, j :: InBoth(base, head, id, i, j) && !Same(base, head, base.leaves[i], head.leaves[j])
  }

  /** Two leaves say the same: kind, place, title, path, digest and, for Markdown, the text itself. */
  ghost predicate Same(base: Revision, head: Revision, b: Leaf, h: Leaf) {
    && b.Markdown? == h.Markdown? && b.position == h.position && b.title == h.title
    && PathOf(b) == PathOf(h) && DigestOf(b) == DigestOf(h)
    && (b.Markdown? ==> ContentAt(base.documents, b.path) == ContentAt(head.documents, h.path))
  }

  /** Every change has the right class, and every document of either revision has a change. */
  lemma EveryDocumentClassified(base: Revision, head: Revision)
    ensures forall item :: item in AllItems(base, head) ==> RightClass(base, head, item)
    ensures forall id :: HasId(base.leaves, id) || HasId(head.leaves, id) ==>
      exists item :: item in AllItems(base, head) && item.info.documentId == id
  {
    var items := AllItems(base, head);
    RemovedItemsAre(base, head, |base.leaves|);
    forall item | item in items
      ensures RightClass(base, head, item)
    {
      if item in RemovedItems(base, head, |base.leaves|) {
      } else {
        var heads := HeadItems(base, head, |head.leaves|);
        var j :| 0 <= j < |heads| && item == heads[j];
        HeadItemAt(base, head, |head.leaves|, j);
        ClassifiedHead(base, head, j);
      }
    }
    forall id | HasId(base.leaves, id) || HasId(head.leaves, id)
      ensures exists item :: item in items && item.info.documentId == id
    {
      if HasId(head.leaves, id) {
        var j :| 0 <= j < |head.leaves| && head.leaves[j].id == id;
        HeadItemId(base, head, j);
        assert items[j] == HeadItems(base, head, |head.leaves|)[j];
        assert items[j] in items && items[j].info.documentId == id;
      } else {
        var i :| 0 <= i < |base.leaves| && base.leaves[i].id == id;
        var item := RemovedItem(base.leaves[i], base.documents);
        assert item in RemovedItems(base, head, |base.leaves|);
        assert item in items && item.info.documentId == id;
      }
    }
  }

  lemma ClassifiedHead(base: Revision, head: Revision, j: nat)
    requires j < |head.leaves|
    ensures RightClass(base, head, HeadItem(base, head, head.leaves[j]))
  {
    var h := head.leaves[j];
    ByIdFinds(base.leaves, h.id);
    if ById(base.leaves, h.id).Some? {
      var b := ById(base.leaves, h.id).value;
      var i :| 0 <= i < |base.leaves| && base.leaves[i] == b;
      assert InBoth(base, head, h.id, i, j);
      assert HeadItem(base, head, h).info.changeType == Unchanged <==> Same(base, head, base.leaves[i], head.leaves[j]);
    }
  }

  // ----- Counting -----

  lemma {:induction false} CountAppend(a: seq<Item>, b: seq<Item>, tally: Tally)
    ensures Count(a + b, tally) == Count(a, tally) + Count(b, tally)
    decreases |b|
  {
    if b == [] {
      assert a + b == a;
    } else {
      var last := |b| - 1;
      assert (a + b)[..|a + b| - 1] == a + b[..last];
      CountAppend(a, b[..last], tally);
    }
  }

  function CountIn(leaves: seq<Leaf>, ids: set<string>): (n: nat)
    ensures n <= |leaves|
  {
    if leaves == [] then 0
    else CountIn(leaves[..|leaves| - 1], ids) + if leaves[|leaves| - 1].id in ids then 1 else 0
  }

  lemma OneMoreIn(a: set<string>, x: string, ids: set<string>)
    requires x !in a
    ensures |(a + {x}) * ids| == |a * ids| + if x in ids then 1 else 0
  {
    if x in ids {
      assert (a + {x}) * ids == a * ids + {x};
    } else {
      assert (a + {x}) * ids == a * ids;
    }
  }

  lemma {:induction false} CountInIsIntersection(leaves: seq<Leaf>, ids: set<string>)
    requires UniqueIds(leaves)
    ensures CountIn(leaves, ids) == |IdSet(leaves) * ids|
  {
    if leaves == [] {
      assert IdSet(leaves) * ids == {};
    } else {
      var before, last := leaves[..|leaves| - 1], leaves[|leaves| - 1].id;
      CountInIsIntersection(before, ids);
      IdSetSnoc(leaves);
      HasIdIsInIdSet(before, last);
      assert last !in IdSet(before);
      OneMoreIn(IdSet(before), last, ids);
    }
  }

  lemma CountSnoc(items: seq<Item>, item: Item, tally: Tally)
    ensures Count(items + [item], tally) == Count(items, tally) + if Counts(tally, item.info) then 1 else 0
  {
    assert (items + [item])[..|items|] == items;
  }

  lemma CountInSnoc(leaves: seq<Leaf>, n: nat, ids: set<string>)
    requires n < |leaves|
    ensures CountIn(leaves[..n + 1], ids) == CountIn(leaves[..n], ids) + if leaves[n].id in ids then 1 else 0
  {
    assert leaves[..n + 1][..n] == leaves[..n];
  }

  lemma {:induction false} HeadAdditions(base: Revision, head: Revision, n: nat)
    requires n <= |head.leaves|
    ensures CountType(HeadItems(base, head, n), Added) + CountIn(head.leaves[..n], IdSet(base.leaves)) == n
    ensures CountType(HeadItems(base, head, n), Removed) == 0
  {
    hide HeadItem, Count, CountIn, IdSet;
    if n == 0 {
      NothingCounted(IdSet(base.leaves));
      assert head.leaves[..0] == [];
    } else {
      var before, leaf := HeadItems(base, head, n - 1), head.leaves[n - 1];
      HeadAdditions(base, head, n - 1);
      CountSnoc(before, HeadItem(base, head, leaf), OfType(Added));
      CountSnoc(before, HeadItem(base, head, leaf), OfType(Removed));
      CountInSnoc(head.leaves, n - 1, IdSet(base.leaves));
      HeadItemType(base, head, leaf);
    }
  }

  lemma HeadItemType(base: Revision, head: Revision, leaf: Leaf)
    ensures Counts(OfType(Added), HeadItem(base, head, leaf).info) <==> leaf.id !in IdSet(base.leaves)
    ensures !Counts(OfType(Removed), HeadItem(base, head, leaf).info)
  {
    hide IdSet, ById;
    ByIdFinds(base.leaves, leaf.id);
    HasIdIsInIdSet(base.leaves, leaf.id);
  }

  lemma {:induction false} RemovalCount(base: Revision, head: Revision, n: nat)
    requires n <= |base.leaves|
    ensures |RemovedItems(base, head, n)| + CountIn(base.leaves[..n], IdSet(head.leaves)) == n
    ensures CountType(RemovedItems(base, head, n), Removed) == |RemovedItems(base, head, n)|
  {
    hide RemovedItem, IdSet, CountIn, Count;
    if n == 0 {
      NothingCounted(IdSet(head.leaves));
      assert base.leaves[..0] == [];
    } else {
      var before, leaf := RemovedItems(base, head, n - 1), base.leaves[n - 1];
      RemovalCount(base, head, n - 1);
      CountInSnoc(base.leaves, n - 1, IdSet(head.leaves));
      HasIdIsInIdSet(head.leaves, leaf.id);
      RemovedIsRemoved(leaf, base.documents);
      CountSnoc(before, RemovedItem(leaf, base.documents), OfType(Removed));
      assert before + [] == before;
    }
  }

  lemma NothingCounted(ids: set<string>)
    ensures CountIn([], ids) == 0 && CountType([], Removed) == 0 && CountType([], Added) == 0
  {
  }

  lemma RemovedIsRemoved(leaf: Leaf, documents: Documents)
    ensures Counts(OfType(Removed), RemovedItem(leaf, documents).info)
  {
  }

  lemma {:induction false} TypesPartition(items: seq<Item>)
    ensures CountType(items, Added) + CountType(items, Removed) + CountType(items, Modified)
          + CountType(items, Unchanged) == |items|
  {
    if items != [] {
      TypesPartition(items[..|items| - 1]);
    }
  }

  /**
   The counts add up: additions and kept documents make the head, removals and kept documents make the
   base, and every change but the unchanged ones is counted exactly once.
   */
  lemma CountsAddUp(base: Revision, head: Revision)
    requires UniqueIds(base.leaves) && UniqueIds(head.leaves)
    ensures var items := AllItems(base, head);
      var kept := |IdSet(base.leaves) * IdSet(head.leaves)|;
      && CountType(items, Added) + kept == |head.leaves|
      && CountType(items, Removed) + kept == |base.leaves|
      && CountType(items, Modified) + CountType(items, Unchanged) == kept
      && TotalChanges(Summarize(items)) + CountType(items, Unchanged) == |items|
  {
    var heads, removed := HeadItems(base, head, |head.leaves|), RemovedItems(base, head, |base.leaves|);
    assert head.leaves[..|head.leaves|] == head.leaves && base.leaves[..|base.leaves|] == base.leaves;
    HeadAdditions(base, head, |head.leaves|);
    RemovalCount(base, head, |base.leaves|);
    CountInIsIntersection(head.leaves, IdSet(base.leaves));
    CountInIsIntersection(base.leaves, IdSet(head.leaves));
    assert IdSet(head.leaves) * IdSet(base.leaves) == IdSet(base.leaves) * IdSet(head.leaves);
    TypesPartition(removed);
    forall t
      ensures CountType(heads + removed, t) == CountType(heads, t) + CountType(removed, t)
    {
      CountAppend(heads, removed, OfType(t));
    }
    TypesPartition(heads + removed);
  }
}
