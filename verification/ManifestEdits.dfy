/**
 Edits of a document set: writing a Markdown document, inserting a PDF, and reordering (which also
 removes). Each keeps the set valid, and together they obey the laws of list edits.
 */
module ManifestEdits {
  import opened Wrappers
  import opened Leaves
  import opened Text
  import opened DocumentSet

  type EditResult = Result<Manifest, DocumentSetError>

  function DocumentsOf(m: Option<Manifest>): seq<Leaf> {
    match m case None => [] case Some(manifest) => manifest.documents
  }

  // ----- Titles from paths -----

  predicate IsSeparator(c: char) {
    c == '-' || c == '_'
  }

  /** Every run of separators becomes one space. */
  function Spaced(name: string, inRun: bool): string {
    if name == "" then ""
    else if IsSeparator(name[0]) then (if inRun then "" else " ") + Spaced(name[1..], true)
    else [name[0]] + Spaced(name[1..], false)
  }

  function TrimStart(s: string): string {
    if s != "" && s[0] == ' ' then TrimStart(s[1..]) else s
  }

  function TrimEnd(s: string): string {
    if s != "" && s[|s| - 1] == ' ' then TrimEnd(s[..|s| - 1]) else s
  }

  function MarkdownDocumentTitle(path: string): string {
    var file := if StartsWith(path, "documents/") then path[10..] else path;
    var stem := if |file| >= 3 && file[|file| - 3..] == ".md" then file[..|file| - 3] else file;
    var name := TrimEnd(TrimStart(Spaced(stem, false)));
    if name != "" then name else path
  }

  /** The words of a name: what stands between its separators. */
  function Words(name: string): (words: seq<string>)
    ensures forall i :: 0 <= i < |words| ==> words[i] != ""
    ensures name != "" && !IsSeparator(name[0]) ==> words != []
  {
    if name == "" then []
    else if IsSeparator(name[0]) then Words(name[1..])
    else if |name| == 1 || IsSeparator(name[1]) then [[name[0]]] + Words(name[1..])
    else
      var words := Words(name[1..]);
      [[name[0]] + words[0]] + words[1..]
  }

  lemma {:induction false} TrimEndAppend(a: string, b: string)
    ensures TrimEnd(a + b) == if TrimEnd(b) == "" then TrimEnd(a) else a + TrimEnd(b)
    decreases |b|
  {
    if b == "" {
      assert a + b == a;
    } else if b[|b| - 1] == ' ' {
      assert (a + b)[..|a + b| - 1] == a + b[..|b| - 1];
      TrimEndAppend(a, b[..|b| - 1]);
    }
  }

  lemma JoinCons(word: string, words: seq<string>)
    ensures Join([word] + words, " ") == if words == [] then word else word + " " + Join(words, " ")
  {
    assert ([word] + words)[1..] == words;
  }

  lemma JoinLonger(c: char, words: seq<string>)
    requires words != []
    ensures Join([[c] + words[0]] + words[1..], " ") == [c] + Join(words, " ")
  {
    var longer := [[c] + words[0]] + words[1..];
    assert longer[1..] == words[1..];
  }

  lemma WordsJoined(words: seq<string>)
    requires words != [] && forall i :: 0 <= i < |words| ==> words[i] != ""
    ensures Join(words, " ") != ""
  {
    assert |Join(words, " ")| >= |words[0]| > 0;
  }

  /** A word before a separator, and what comes behind it. */
  lemma SpacedWordEnds(c: char, rest: string)
    requires !IsSeparator(c) && c != ' ' && rest != "" && IsSeparator(rest[0])
    ensures Spaced([c] + rest, true) == [c, ' '] + Spaced(rest, true)
    ensures Words([c] + rest) == [[c]] + Words(rest)
    ensures TrimEnd([c, ' ']) == [c]
  {
    assert ([c] + rest)[1..] == rest;
    assert [c, ' '][..1] == [c];
  }

  lemma SpacedWordGoesOn(c: char, rest: string)
    requires !IsSeparator(c) && c != ' ' && rest != "" && !IsSeparator(rest[0])
    ensures Spaced([c] + rest, true) == [c] + Spaced(rest, true)
    ensures Words([c] + rest) == [[c] + Words(rest)[0]] + Words(rest)[1..]
    ensures TrimEnd([c]) == [c]
  {
    assert ([c] + rest)[1..] == rest;
  }

  /** Spaced and trimmed behind, a name is its words with one space between them. */
  lemma {:induction false} SpacedIsWords(name: string)
    requires Without(name, ' ')
    ensures TrimEnd(Spaced(name, true)) == Join(Words(name), " ")
  {
    if name != "" {
      var c, rest := name[0], name[1..];
      var words, spaced := Words(rest), Spaced(rest, true);
      SpacedIsWords(rest);
      assert name == [c] + rest;
      if IsSeparator(c) {
        assert Spaced(name, true) == Spaced(rest, true) && Words(name) == words;
      } else if rest == "" {
        assert Spaced(name, true) == [c] && Words(name) == [[c]];
      } else {
        if words != [] { WordsJoined(words); }
        if IsSeparator(rest[0]) {
          SpacedWordEnds(c, rest);
          TrimEndAppend([c, ' '], spaced);
          assert [c] + " " == [c, ' '];
          JoinCons([c], words);
        } else {
          SpacedWordGoesOn(c, rest);
          hide Spaced, Words;
          TrimEndAppend([c], spaced);
          JoinLonger(c, words);
        }
      }
    }
  }

  /** The title of a document without one: the words of its file name, without directory and extension. */
  lemma TitleIsWords(path: string)
    requires IsMarkdownPath(path)
    ensures MarkdownDocumentTitle(path) == Join(Words(path[10..|path| - 3]), " ")
  {
    var file, stem := path[10..], path[10..|path| - 3];
    assert file[|file| - 3..] == path[|path| - 3..] && file[..|file| - 3] == stem;
    assert stem[0] == path[10];
    hide IsMarkdownPath;
    SpacedIsWords(stem);
    assert TrimStart(Spaced(stem, false)) == Spaced(stem, true);
  }

  // ----- Writing a Markdown document -----

  /** The first Markdown leaf with a path, or the number of leaves. */
  function IndexOfPath(leaves: seq<Leaf>, path: string): (i: nat)
    ensures i <= |leaves|
    ensures i < |leaves| ==> leaves[i].Markdown? && leaves[i].path == path
    ensures forall j :: 0 <= j < i ==> !(leaves[j].Markdown? && leaves[j].path == path)
  {
    if leaves == [] || (leaves[0].Markdown? && leaves[0].path == path) then 0
    else 1 + IndexOfPath(leaves[1..], path)
  }

  /** A Markdown leaf with a new title and digest. */
  function Rewritten(leaf: Leaf, title: string, contentSha256: string): Leaf
    requires leaf.Markdown?
  {
    Markdown(leaf.id, leaf.position, title, leaf.path, contentSha256)
  }

  /** What writing a document makes of the list: one leaf replaced in place, or one added at the end. */
  function Written(leaves: seq<Leaf>, path: string, contentSha256: string, mintedId: string, title: string): seq<Leaf> {
    var i := IndexOfPath(leaves, path);
    if i < |leaves| then leaves[i := Rewritten(leaves[i], title, contentSha256)]
    else leaves + [Markdown(mintedId, |leaves|, title, path, contentSha256)]
  }

  function TitleOf(path: string, title: Option<string>): string {
    if title.Some? then title.value else MarkdownDocumentTitle(path)
  }

  function Upsert(m: Option<Manifest>, path: string, contentSha256: string, mintedId: string, title: Option<string>)
    : EditResult
  {
    if !IsMarkdownPath(path) then Err(PathInvalid)
    else if !IsSha256(contentSha256) then Err(ContentDigestInvalid)
    else
      Sealed(Written(DocumentsOf(m), path, contentSha256, mintedId, TitleOf(path, title)))
  }

  method UpsertMarkdownDocument(m: Option<Manifest>, path: string, contentSha256: string, mintedId: string,
                                title: Option<string>)
    returns (r: EditResult)
    ensures r == Upsert(m, path, contentSha256, mintedId, title)
    ensures r.Ok? ==> Valid(r.value)
  {
    if !IsMarkdownPath(path) { return Err(PathInvalid); }
    if !IsSha256(contentSha256) { return Err(ContentDigestInvalid); }
    var documents := DocumentsOf(m);
    var existingIndex := 0;
    while existingIndex < |documents|
      && !(documents[existingIndex].Markdown? && documents[existingIndex].path == path)
      invariant existingIndex <= |documents|
      invariant forall j :: 0 <= j < existingIndex ==> !(documents[j].Markdown? && documents[j].path == path)
    {
      existingIndex := existingIndex + 1;
    }
    assert existingIndex == IndexOfPath(documents, path);
    var leafTitle := if title.Some? then title.value else MarkdownDocumentTitle(path);
    if existingIndex < |documents| {
      documents := documents[existingIndex := Rewritten(documents[existingIndex], leafTitle, contentSha256)];
    } else {
      documents := documents + [Markdown(mintedId, |documents|, leafTitle, path, contentSha256)];
    }
    SealedIs(documents);
    r := Renumber(documents);
  }

  /** Writing the same document again changes nothing, whatever id is minted the second time. */
  lemma UpsertTwice(m: Option<Manifest>, path: string, contentSha256: string, id1: string, id2: string,
                    title: Option<string>)
    requires Upsert(m, path, contentSha256, id1, title).Ok?
    ensures var once := Upsert(m, path, contentSha256, id1, title);
      Upsert(Some(once.value), path, contentSha256, id2, title) == once
  {
    var leafTitle := TitleOf(path, title);
    var written := Written(DocumentsOf(m), path, contentSha256, id1, leafTitle);
    var once := Sealed(written).value;
    SealedIs(written);
    var i := IndexOfPath(DocumentsOf(m), path);
    assert once.documents[i] == At(written[i], i);
    var j := IndexOfPath(once.documents, path);
    assert j == i;
    assert Written(once.documents, path, contentSha256, id2, leafTitle) == once.documents;
    SealingValid(once);
  }

  /** Writing a document leaves every other document, and every id already there, as it was. */
  lemma UpsertKeepsOthers(m: Option<Manifest>, path: string, contentSha256: string, mintedId: string,
                          title: Option<string>)
    requires Upsert(m, path, contentSha256, mintedId, title).Ok?
    ensures var before, after := DocumentsOf(m), Upsert(m, path, contentSha256, mintedId, title).value.documents;
      var i := IndexOfPath(before, path);
      && |after| == (if i < |before| then |before| else |before| + 1)
      && after[i] == Markdown(if i < |before| then before[i].id else mintedId, i, TitleOf(path, title), path,
                              contentSha256)
      && forall j :: 0 <= j < |before| && j != i ==> after[j] == At(before[j], j)
  {
  }

  /**
   Writing succeeds exactly for a valid path, digest and title, if the path is there already or there is
   room for one more document and the minted id is valid and new.
   */
  lemma UpsertExactlyWhen(m: Option<Manifest>, path: string, contentSha256: string, mintedId: string,
                          title: Option<string>)
    requires m.Some? ==> Valid(m.value)
    ensures Upsert(m, path, contentSha256, mintedId, title).Ok? <==>
      && IsMarkdownPath(path) && IsSha256(contentSha256) && IsTitle(TitleOf(path, title))
      && (HasPath(DocumentsOf(m), path) ||
          (|DocumentsOf(m)| < MAX_DOCUMENT_SET_SIZE && IsUuidV7(mintedId) && !HasId(DocumentsOf(m), mintedId)))
  {
    hide IsMarkdownPath, IsSha256, IsTitle, IsUuidV7, MarkdownDocumentTitle, LeafFault, ValidLeaves, Renumbered;
    if IsMarkdownPath(path) && IsSha256(contentSha256) {
      var before, leafTitle := DocumentsOf(m), TitleOf(path, title);
      var i := IndexOfPath(before, path);
      SealedIs(Written(before, path, contentSha256, mintedId, leafTitle));
      if i < |before| {
        MarkdownFault(before[i].id, i, leafTitle, path, contentSha256);
        RewrittenIsValid(before, i, leafTitle, contentSha256);
      } else {
        MarkdownFault(mintedId, |before|, leafTitle, path, contentSha256);
        AddedIsValid(m, Markdown(mintedId, |before|, leafTitle, path, contentSha256));
      }
    }
  }

  lemma MarkdownFault(id: string, position: int, title: string, path: string, contentSha256: string)
    ensures LeafFault(Markdown(id, position, title, path, contentSha256)).None? <==>
      && IsUuidV7(id) && 0 <= position < MAX_DOCUMENT_SET_SIZE && IsTitle(title)
      && IsMarkdownPath(path) && IsSha256(contentSha256)
  {
    hide IsMarkdownPath, IsSha256, IsTitle, IsUuidV7;
  }

  lemma RewrittenIsValid(before: seq<Leaf>, i: nat, title: string, contentSha256: string)
    requires ValidLeaves(before) && i < |before| && before[i].Markdown?
    ensures var leaf := Markdown(before[i].id, i, title, before[i].path, contentSha256);
      && IsUuidV7(before[i].id) && i < MAX_DOCUMENT_SET_SIZE
      && (ValidLeaves(Renumbered(before[i := Rewritten(before[i], title, contentSha256)])) <==> LeafFault(leaf).None?)
  {
    MarkdownFault(before[i].id, i, before[i].title, before[i].path, before[i].contentSha256);
    hide LeafFault, IsUuidV7;
    var after := Renumbered(before[i := Rewritten(before[i], title, contentSha256)]);
    assert after[i] == Markdown(before[i].id, i, title, before[i].path, contentSha256);
    assert forall j :: 0 <= j < |before| && j != i ==> after[j] == before[j];
  }

  lemma AddedIsValid(m: Option<Manifest>, leaf: Leaf)
    requires m.Some? ==> Valid(m.value)
    requires leaf.Markdown? && leaf.position == |DocumentsOf(m)| && !HasPath(DocumentsOf(m), leaf.path)
    ensures ValidLeaves(Renumbered(DocumentsOf(m) + [leaf])) <==>
      |DocumentsOf(m)| < MAX_DOCUMENT_SET_SIZE && LeafFault(leaf).None? && !HasId(DocumentsOf(m), leaf.id)
  {
    hide LeafFault;
    var before := DocumentsOf(m);
    var after := Renumbered(before + [leaf]);
    assert after[|before|] == leaf;
    assert forall j :: 0 <= j < |before| ==> after[j] == before[j];
    if HasId(before, leaf.id) {
      var i :| 0 <= i < |before| && before[i].id == leaf.id;
      assert after[i].id == after[|before|].id;
    }
  }

  // ----- Inserting a PDF -----

  datatype PdfInput = PdfInput(id: Option<string>, title: string, sha256: string, byteSize: int, pageCount: int,
                               pageWidth: Double, pageHeight: Double, position: Option<int>)

  function PdfLeaf(input: PdfInput, mintedId: string, position: int): Leaf {
    Pdf(if input.id.Some? then input.id.value else mintedId, position, input.title, input.sha256,
        input.byteSize, input.pageCount, input.pageWidth, input.pageHeight)
  }

  function AppendPdf(m: Option<Manifest>, input: PdfInput, mintedId: string): EditResult {
    var documents := DocumentsOf(m);
    var position := if input.position.Some? then input.position.value else |documents|;
    if !(0 <= position <= |documents|) then Err(PdfPositionOutOfRange)
    else
      var leaf := PdfLeaf(input, mintedId, position);
      match LeafFault(leaf)
      case Some(e) => Err(e)
      case None => Sealed(documents[..position] + [leaf] + documents[position..])
  }

  method AppendPdfDocument(m: Option<Manifest>, input: PdfInput, mintedId: string) returns (r: EditResult)
    ensures r == AppendPdf(m, input, mintedId)
    ensures r.Ok? ==> Valid(r.value)
  {
    var documents := DocumentsOf(m);
    var position := if input.position.Some? then input.position.value else |documents|;
    if position < 0 || position > |documents| { return Err(PdfPositionOutOfRange); }
    var leaf := PdfLeaf(input, mintedId, position);
    if LeafFault(leaf).Some? { return Err(LeafFault(leaf).value); }
    documents := documents[..position] + [leaf] + documents[position..];
    SealedIs(documents);
    r := Renumber(documents);
  }

  /** Inserting succeeds exactly for a position in range, a valid leaf with a new id, and room for one more document. */
  lemma AppendPdfExactlyWhen(m: Option<Manifest>, input: PdfInput, mintedId: string)
    requires m.Some? ==> Valid(m.value)
    ensures var before := DocumentsOf(m);
      var position := if input.position.Some? then input.position.value else |before|;
      var id := if input.id.Some? then input.id.value else mintedId;
      AppendPdf(m, input, mintedId).Ok? <==>
        && 0 <= position <= |before| < MAX_DOCUMENT_SET_SIZE
        && IsUuidV7(id) && !HasId(before, id) && IsTitle(input.title) && IsSha256(input.sha256)
        && 0 < input.byteSize <= MAX_DOCUMENT_PDF_BYTES && 1 <= input.pageCount <= MAX_DOCUMENT_PDF_PAGES
        && 0.0 < input.pageWidth <= MAX_DOCUMENT_PDF_PAGE_DIMENSION
        && 0.0 < input.pageHeight <= MAX_DOCUMENT_PDF_PAGE_DIMENSION
  {
    hide LeafFault, ValidLeaves, IsUuidV7, IsTitle, IsSha256;
    var before := DocumentsOf(m);
    var position := if input.position.Some? then input.position.value else |before|;
    var leaf := PdfLeaf(input, mintedId, position);
    if 0 <= position <= |before| {
      PdfFault(leaf);
      SealedIs(before[..position] + [leaf] + before[position..]);
      if |before| < MAX_DOCUMENT_SET_SIZE && LeafFault(leaf).None? { InsertedIsValid(m, leaf, position); }
      TooManyInserted(before, leaf, position);
    }
  }

  lemma PdfFault(leaf: Leaf)
    requires leaf.Pdf?
    ensures LeafFault(leaf).None? <==>
      && IsUuidV7(leaf.id) && 0 <= leaf.position < MAX_DOCUMENT_SET_SIZE && IsTitle(leaf.title)
      && IsSha256(leaf.sha256) && 0 < leaf.byteSize <= MAX_DOCUMENT_PDF_BYTES
      && 1 <= leaf.pageCount <= MAX_DOCUMENT_PDF_PAGES
      && 0.0 < leaf.pageWidth <= MAX_DOCUMENT_PDF_PAGE_DIMENSION
      && 0.0 < leaf.pageHeight <= MAX_DOCUMENT_PDF_PAGE_DIMENSION
  {
    hide IsSha256, IsTitle, IsUuidV7;
  }

  /** Moving a leaf within the range of positions gives it no fault. */
  lemma FaultMoved(leaf: Leaf, k: nat)
    requires LeafFault(leaf).None? && k < MAX_DOCUMENT_SET_SIZE
    ensures LeafFault(At(leaf, k)).None?
  {
    hide IsMarkdownPath, IsSha256, IsTitle, IsUuidV7;
  }

  lemma TooManyInserted(before: seq<Leaf>, leaf: Leaf, p: nat)
    requires p <= |before|
    ensures |before| >= MAX_DOCUMENT_SET_SIZE ==> !ValidLeaves(Renumbered(before[..p] + [leaf] + before[p..]))
  {
  }

  /** The leaf at a position after an insertion at `p`. */
  function Shifted(before: seq<Leaf>, leaf: Leaf, p: nat, k: nat): Leaf
    requires p <= |before| && k <= |before|
  {
    if k < p then At(before[k], k) else if k == p then leaf else At(before[k - 1], k)
  }

  lemma InsertedAfter(before: seq<Leaf>, leaf: Leaf, p: nat, k: nat)
    requires p <= |before| && k <= |before| && leaf.position == p
    ensures Renumbered(before[..p] + [leaf] + before[p..])[k] == Shifted(before, leaf, p, k)
  {
  }

  lemma InsertedIsValid(m: Option<Manifest>, leaf: Leaf, p: nat)
    requires m.Some? ==> Valid(m.value)
    requires leaf.Pdf? && leaf.position == p <= |DocumentsOf(m)| < MAX_DOCUMENT_SET_SIZE && LeafFault(leaf).None?
    ensures ValidLeaves(Renumbered(DocumentsOf(m)[..p] + [leaf] + DocumentsOf(m)[p..]))
       <==> !HasId(DocumentsOf(m), leaf.id)
  {
    hide LeafFault, Renumbered;
    var before := DocumentsOf(m);
    var after := Renumbered(before[..p] + [leaf] + before[p..]);
    forall k | 0 <= k <= |before|
      ensures LeafFault(after[k]).None? && after[k].position == k
      ensures after[k] == Shifted(before, leaf, p, k)
    {
      InsertedAfter(before, leaf, p, k);
      if k < p { FaultMoved(before[k], k); } else if k > p { FaultMoved(before[k - 1], k); }
    }
    if HasId(before, leaf.id) {
      var i :| 0 <= i < |before| && before[i].id == leaf.id;
      assert after[if i < p then i else i + 1].id == after[p].id;
    } else {
      InsertedUnique(before, after, leaf, p);
    }
  }

  lemma InsertedUnique(before: seq<Leaf>, after: seq<Leaf>, leaf: Leaf, p: nat)
    requires p <= |before| && |after| == |before| + 1 && leaf.Pdf?
    requires forall k :: 0 <= k < |after| ==> after[k] == Shifted(before, leaf, p, k)
    requires UniqueIds(before) && UniquePaths(before) && !HasId(before, leaf.id)
    ensures UniqueIds(after) && UniquePaths(after)
  {
    forall i, j | 0 <= i < j < |after|
      ensures after[i].id != after[j].id
      ensures after[i].Markdown? && after[j].Markdown? ==> after[i].path != after[j].path
    {
      var a, b := if i < p then i else i - 1, if j < p then j else j - 1;
      assert i != p ==> after[i] == At(before[a], i);
      assert j != p ==> after[j] == At(before[b], j);
    }
  }

  // ----- Reordering -----

  /** The first thing wrong with an order from position `k` on. */
  function OrderFault(leaves: seq<Leaf>, ids: seq<string>, k: nat): Option<DocumentSetError>
    requires k <= |ids|
    decreases |ids| - k
  {
    if k == |ids| then None
    else if ids[k] in ids[..k] then Some(OrderRepeatsId)
    else if ById(leaves, ids[k]).None? then Some(OrderUnknownId)
    else OrderFault(leaves, ids, k + 1)
  }

  /** The leaves an order names, in its order. */
  function Picked(leaves: seq<Leaf>, ids: seq<string>): (r: seq<Leaf>)
    requires forall k :: 0 <= k < |ids| ==> ById(leaves, ids[k]).Some?
    ensures |r| == |ids| && forall k :: 0 <= k < |ids| ==> r[k] == ById(leaves, ids[k]).value
  {
    seq(|ids|, k requires 0 <= k < |ids| => ById(leaves, ids[k]).value)
  }

  ghost predicate Known(leaves: seq<Leaf>, ids: seq<string>) {
    forall k :: 0 <= k < |ids| ==> ById(leaves, ids[k]).Some?
  }

  ghost predicate NoRepeats(ids: seq<string>) {
    forall i, j :: 0 <= i < j < |ids| ==> ids[i] != ids[j]
  }

  lemma {:induction false} NoOrderFault(leaves: seq<Leaf>, ids: seq<string>, k: nat)
    requires k <= |ids|
    ensures OrderFault(leaves, ids, k).None? <==>
      forall j :: k <= j < |ids| ==> ids[j] !in ids[..j] && ById(leaves, ids[j]).Some?
    decreases |ids| - k
  {
    if k < |ids| {
      NoOrderFault(leaves, ids, k + 1);
    }
  }

  /** An order has no fault exactly when it names known documents, each at most once. */
  lemma FaultlessOrder(leaves: seq<Leaf>, ids: seq<string>)
    ensures OrderFault(leaves, ids, 0).None? <==> Known(leaves, ids) && NoRepeats(ids)
  {
    NoOrderFault(leaves, ids, 0);
    if NoRepeats(ids) {
      forall j | 0 <= j < |ids|
        ensures ids[j] !in ids[..j]
      {
      }
    }
    if OrderFault(leaves, ids, 0).None? {
      forall i, j | 0 <= i < j < |ids|
        ensures ids[i] != ids[j]
      {
        assert ids[j] !in ids[..j] && ids[..j][i] == ids[i];
      }
    }
  }

  function Reorder(m: Manifest, ids: seq<string>): EditResult {
    if Fault(m).Some? then Err(Fault(m).value)
    else if |ids| < 1 then Err(OrderEmpty)
    else if |ids| > |m.documents| then Err(OrderTooLong)
    else
      match OrderFault(m.documents, ids, 0)
      case Some(e) => Err(e)
      case None =>
        FaultlessOrder(m.documents, ids);
        Sealed(Picked(m.documents, ids))
  }

  /** In a valid set there are as many ids in the index as documents. */
  lemma IndexSize(leaves: seq<Leaf>, byId: map<string, Leaf>)
    requires IsIndex(byId, leaves) && UniqueIds(leaves)
    ensures |byId| == |leaves|
  {
    IdSetSize(leaves);
    forall id
      ensures id in byId.Keys <==> id in IdSet(leaves)
    {
      ByIdFinds(leaves, id);
      HasIdIsInIdSet(leaves, id);
      assert ById(leaves, id) == if id in byId then Some(byId[id]) else None;
    }
    assert byId.Keys == IdSet(leaves);
  }

  method ReorderDocumentSet(m: Manifest, documentIds: seq<string>) returns (r: EditResult)
    ensures r == Reorder(m, documentIds)
    ensures r.Ok? ==> Valid(r.value)
  {
    var fault := AssertDocumentSet(m);
    if fault.Some? { return Err(fault.value); }
    if |documentIds| < 1 { return Err(OrderEmpty); }
    var byId := IndexById(m.documents);
    IndexSize(m.documents, byId);
    if |documentIds| > |byId| { return Err(OrderTooLong); }
    var seen: set<string> := {};
    var documents: seq<Leaf> := [];
    for k := 0 to |documentIds|
      invariant OrderFault(m.documents, documentIds, 0) == OrderFault(m.documents, documentIds, k)
      invariant forall id :: id in seen <==> id in documentIds[..k]
      invariant Known(m.documents, documentIds[..k]) && documents == Picked(m.documents, documentIds[..k])
    {
      var id := documentIds[k];
      assert documentIds[..k + 1] == documentIds[..k] + [id];
      if id in seen { return Err(OrderRepeatsId); }
      assert ById(m.documents, id) == if id in byId then Some(byId[id]) else None;
      if id !in byId { return Err(OrderUnknownId); }
      seen := seen + {id};
      documents := documents + [byId[id]];
    }
    assert documentIds[..|documentIds|] == documentIds;
    FaultlessOrder(m.documents, documentIds);
    SealedIs(documents);
    r := Renumber(documents);
  }

  // ----- The laws of reordering -----

  /** Picking the leaf of an id by its index. */
  lemma ByIdOfPicked(leaves: seq<Leaf>, ids: seq<string>, k: nat)
    requires Known(leaves, ids) && NoRepeats(ids) && k < |ids|
    ensures UniqueIds(Picked(leaves, ids)) && Ids(Picked(leaves, ids)) == ids
    ensures ById(Picked(leaves, ids), ids[k]) == Some(Picked(leaves, ids)[k])
  {
    var picked := Picked(leaves, ids);
    forall i | 0 <= i < |ids|
      ensures picked[i].id == ids[i]
    {
      ByIdFinds(leaves, ids[i]);
    }
    ByIdUnique(picked, k);
  }

  /** Distinct known leaves of a valid set make a valid set in any order. */
  lemma PickedIsValid(m: Manifest, ids: seq<string>)
    requires Valid(m) && Known(m.documents, ids) && NoRepeats(ids) && 1 <= |ids| <= |m.documents|
    ensures ValidLeaves(Renumbered(Picked(m.documents, ids)))
  {
    hide LeafFault;
    var picked := Picked(m.documents, ids);
    var r := Renumbered(picked);
    forall i | 0 <= i < |r|
      ensures LeafFault(r[i]).None? && r[i].position == i && r[i].id == ids[i]
      ensures picked[i] in m.documents
    {
      ByIdFinds(m.documents, ids[i]);
      var j :| 0 <= j < |m.documents| && m.documents[j] == picked[i];
      assert LeafFault(m.documents[j]).None?;
      FaultMoved(picked[i], i);
    }
    forall i, j | 0 <= i < j < |r| && r[i].Markdown? && r[j].Markdown?
      ensures r[i].path != r[j].path
    {
      var a :| 0 <= a < |m.documents| && m.documents[a] == picked[i];
      var b :| 0 <= b < |m.documents| && m.documents[b] == picked[j];
      assert picked[i].id == ids[i] && picked[j].id == ids[j];
      assert a != b;
    }
  }

  /**
   Reordering a valid set succeeds exactly when the order names known documents, each at most once and at
   least one; the result lists those documents in that order.
   */
  lemma ReorderExactlyWhen(m: Manifest, ids: seq<string>)
    requires Valid(m)
    ensures Reorder(m, ids).Ok? <==> ids != [] && Known(m.documents, ids) && NoRepeats(ids)
    ensures Reorder(m, ids).Ok? ==>
      && Valid(Reorder(m, ids).value) && Ids(Reorder(m, ids).value.documents) == ids
      && SameUpToPosition(Reorder(m, ids).value.documents, Picked(m.documents, ids))
  {
    FaultlessIsValid(m);
    FaultlessOrder(m.documents, ids);
    if ids != [] && Known(m.documents, ids) && NoRepeats(ids) {
      KnownIsShort(m.documents, ids);
      PickedIsValid(m, ids);
      SealedIs(Picked(m.documents, ids));
      ByIdOfPicked(m.documents, ids, 0);
    }
  }

  lemma {:induction false} FirstOrderFault(leaves: seq<Leaf>, ids: seq<string>, k: nat, j: nat)
    requires j <= k < |ids|
    requires forall i :: j <= i < k ==> ids[i] !in ids[..i] && HasId(leaves, ids[i])
    requires ids[k] in ids[..k] || !HasId(leaves, ids[k])
    ensures OrderFault(leaves, ids, j) == Some(if ids[k] in ids[..k] then OrderRepeatsId else OrderUnknownId)
    decreases k - j
  {
    ByIdFinds(leaves, ids[j]);
    if j < k { FirstOrderFault(leaves, ids, k, j + 1); }
  }

  /**
   The error of a failed reordering of a valid set: an empty order, one longer than the set, and otherwise
   the first id that repeats an earlier one or is unknown.
   */
  lemma ReorderErrors(m: Manifest, ids: seq<string>)
    requires Valid(m)
    ensures ids == [] ==> Reorder(m, ids) == Err(OrderEmpty)
    ensures |ids| > |m.documents| ==> Reorder(m, ids) == Err(OrderTooLong)
    ensures forall k ::
      && 0 <= k < |ids| <= |m.documents| && (ids[k] in ids[..k] || !HasId(m.documents, ids[k]))
      && (forall i :: 0 <= i < k ==> ids[i] !in ids[..i] && HasId(m.documents, ids[i])) ==>
      Reorder(m, ids) == Err(if ids[k] in ids[..k] then OrderRepeatsId else OrderUnknownId)
  {
    hide Fault, HasId, OrderFault;
    FaultlessIsValid(m);
    forall k |
      && 0 <= k < |ids| <= |m.documents| && (ids[k] in ids[..k] || !HasId(m.documents, ids[k]))
      && (forall i :: 0 <= i < k ==> ids[i] !in ids[..i] && HasId(m.documents, ids[i]))
      ensures Reorder(m, ids) == Err(if ids[k] in ids[..k] then OrderRepeatsId else OrderUnknownId)
    {
      FirstOrderFault(m.documents, ids, k, 0);
    }
  }

  lemma {:induction false} SubsetSize(a: set<string>, b: set<string>)
    requires a <= b
    ensures |a| <= |b|
  {
    if a != {} {
      var x :| x in a;
      SubsetSize(a - {x}, b - {x});
    }
  }

  /** An order of known documents without repeats is no longer than the set. */
  lemma KnownIsShort(leaves: seq<Leaf>, ids: seq<string>)
    requires UniqueIds(leaves) && Known(leaves, ids) && NoRepeats(ids)
    ensures |ids| <= |leaves|
  {
    if ids != [] {
      var picked := Picked(leaves, ids);
      ByIdOfPicked(leaves, ids, 0);
      IdSetSize(picked);
      IdSetSize(leaves);
      forall id | id in IdSet(picked)
        ensures id in IdSet(leaves)
      {
        var k :| 0 <= k < |picked| && picked[k].id == id;
        ByIdFinds(leaves, ids[k]);
        HasIdIsInIdSet(leaves, id);
      }
      SubsetSize(IdSet(picked), IdSet(leaves));
    }
  }

  /** Reordering by the ids a valid set already has changes nothing. */
  lemma ReorderToSelf(m: Manifest)
    requires Valid(m)
    ensures Reorder(m, Ids(m.documents)) == Ok(m)
  {
    var ids := Ids(m.documents);
    FaultlessIsValid(m);
    forall k | 0 <= k < |ids|
      ensures ById(m.documents, ids[k]) == Some(m.documents[k])
    {
      ByIdUnique(m.documents, k);
    }
    FaultlessOrder(m.documents, ids);
    assert Picked(m.documents, ids) == m.documents;
    SealingValid(m);
  }

  /** Of two reorderings only the last counts, provided it names no document the first one dropped. */
  lemma ReorderTwice(m: Manifest, first: seq<string>, second: seq<string>)
    requires Valid(m) && Reorder(m, first).Ok?
    requires forall k :: 0 <= k < |second| ==> second[k] in first
    ensures Reorder(Reorder(m, first).value, second).Ok? <==> Reorder(m, second).Ok?
    ensures Reorder(m, second).Ok? ==> Reorder(Reorder(m, first).value, second) == Reorder(m, second)
  {
    var once := Reorder(m, first).value;
    ReorderExactlyWhen(m, first);
    ReorderExactlyWhen(m, second);
    ReorderExactlyWhen(once, second);
    forall k | 0 <= k < |second|
      ensures ById(once.documents, second[k]).Some? && ById(m.documents, second[k]).Some?
      ensures At(ById(once.documents, second[k]).value, 0) == At(ById(m.documents, second[k]).value, 0)
    {
      var j :| 0 <= j < |first| && first[j] == second[k];
      ByIdOfPicked(m.documents, first, j);
      ByIdUnique(once.documents, j);
      assert At(once.documents[j], 0) == At(Picked(m.documents, first)[j], 0);
    }
    if Reorder(m, second).Ok? {
      SameRenumbering(Picked(once.documents, second), Picked(m.documents, second));
    }
  }

  /** Inserting a PDF puts it at its position and changes nothing else but the positions after it. */
  lemma InsertedAt(m: Option<Manifest>, input: PdfInput, mintedId: string)
    requires AppendPdf(m, input, mintedId).Ok?
    ensures var before, after := DocumentsOf(m), AppendPdf(m, input, mintedId).value.documents;
      var p := if input.position.Some? then input.position.value else |before|;
      && 0 <= p <= |before| && |after| == |before| + 1
      && after[p].Pdf? && after[p].position == p && after[p].title == input.title
      && after[p].id == (if input.id.Some? then input.id.value else mintedId)
      && after[p].sha256 == input.sha256 && after[p].byteSize == input.byteSize
      && after[p].pageCount == input.pageCount
      && after[p].pageWidth == input.pageWidth && after[p].pageHeight == input.pageHeight
      && (forall k :: 0 <= k < p ==> after[k] == At(before[k], k))
      && (forall k :: p < k < |after| ==> after[k] == At(before[k - 1], k))
  {
    var documents := DocumentsOf(m);
    var p: nat := if input.position.Some? then input.position.value else |documents|;
    var inserted := documents[..p] + [PdfLeaf(input, mintedId, p)] + documents[p..];
    assert AppendPdf(m, input, mintedId) == Sealed(inserted);
    assert Sealed(inserted).value.documents == Renumbered(inserted);
  }

  /** The documents around an insertion, found again by their ids. */
  lemma FoundAfterInsert(documents: seq<Leaf>, leaf: Leaf, p: nat, after: seq<Leaf>, k: nat)
    requires p <= |documents| && k < |documents|
    requires SameUpToPosition(after, documents[..p] + [leaf] + documents[p..]) && UniqueIds(after)
    ensures ById(after, documents[k].id).Some?
    ensures At(ById(after, documents[k].id).value, 0) == At(documents[k], 0)
  {
    var j := if k < p then k else k + 1;
    assert (documents[..p] + [leaf] + documents[p..])[j] == documents[k];
    assert At(after[j], 0) == At(documents[k], 0);
    assert At(after[j], 0).id == after[j].id && At(documents[k], 0).id == documents[k].id;
    ByIdUnique(after, j);
  }

  /** The original ids pick the original documents out of the set with the insertion. */
  lemma PickedAfterInsert(documents: seq<Leaf>, leaf: Leaf, p: nat, after: seq<Leaf>)
    requires p <= |documents|
    requires SameUpToPosition(after, documents[..p] + [leaf] + documents[p..]) && UniqueIds(after)
    ensures Known(after, Ids(documents)) && SameUpToPosition(Picked(after, Ids(documents)), documents)
  {
    forall k | 0 <= k < |documents|
      ensures ById(after, Ids(documents)[k]).Some?
      ensures At(ById(after, Ids(documents)[k]).value, 0) == At(documents[k], 0)
    {
      FoundAfterInsert(documents, leaf, p, after, k);
    }
  }

  /** Inserting a PDF and then reordering to the original ids restores the original set. */
  lemma InsertThenRestore(m: Manifest, input: PdfInput, mintedId: string)
    requires Valid(m) && AppendPdf(Some(m), input, mintedId).Ok?
    ensures Reorder(AppendPdf(Some(m), input, mintedId).value, Ids(m.documents)) == Ok(m)
  {
    var documents, ids := m.documents, Ids(m.documents);
    var p: nat := if input.position.Some? then input.position.value else |documents|;
    var leaf := PdfLeaf(input, mintedId, p);
    var inserted := documents[..p] + [leaf] + documents[p..];
    assert AppendPdf(Some(m), input, mintedId) == Sealed(inserted);
    SealedIs(inserted);
    var after := Sealed(inserted).value;
    PickedAfterInsert(documents, leaf, p, after.documents);
    ReorderExactlyWhen(after, ids);
    SameRenumbering(Picked(after.documents, ids), documents);
    SealingValid(m);
  }
}
