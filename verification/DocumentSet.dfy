/**
 The manifest of a document set: what makes it valid, and the edits that keep it so. Every edit ends by
 renumbering the documents and checking the whole set again.
 */
module DocumentSet {
  import opened Wrappers
  import opened Leaves
  import opened Text

  const DOCUMENT_SET_SCHEMA := "signkit-document-set-v1"
  const MAX_DOCUMENT_SET_SIZE := 20
  const MAX_DOCUMENT_TITLE_LENGTH := 200
  const MAX_DOCUMENT_PDF_BYTES := 20 * 1024 * 1024
  const MAX_DOCUMENT_PDF_PAGES := 400
  const MAX_DOCUMENT_PDF_PAGE_DIMENSION := 20_000.0

  datatype Manifest = Manifest(schema: string, documents: seq<Leaf>)

  datatype DocumentSetError =
    | SchemaUnsupported | SizeOutOfRange | IdInvalid | PositionInvalid | TitleInvalid | PathInvalid
    | ContentDigestInvalid | PdfDigestInvalid | PdfSizeInvalid | PdfPageCountInvalid | PdfPageSizeInvalid
    | PositionsNotContiguous | IdsNotUnique | PathsNotUnique
    | PdfPositionOutOfRange | OrderEmpty | OrderTooLong | OrderRepeatsId | OrderUnknownId

  // ----- Valid leaves -----

  predicate IsLowerHex(c: char) {
    '0' <= c <= '9' || 'a' <= c <= 'f'
  }

  predicate IsAlphanumeric(c: char) {
    'a' <= c <= 'z' || 'A' <= c <= 'Z' || '0' <= c <= '9'
  }

  /** A canonical lower-case UUID of version 7. */
  predicate IsUuidV7(id: string) {
    |id| == 36 && forall i :: 0 <= i < 36 ==>
      if i == 8 || i == 13 || i == 18 || i == 23 then id[i] == '-'
      else if i == 14 then id[i] == '7'
      else if i == 19 then id[i] in "89ab"
      else IsLowerHex(id[i])
  }

  predicate IsSha256(digest: string) {
    |digest| == 64 && forall i :: 0 <= i < 64 ==> IsLowerHex(digest[i])
  }

  predicate IsTitle(title: string) {
    1 <= Utf16Length(title) <= MAX_DOCUMENT_TITLE_LENGTH &&
    forall i :: 0 <= i < |title| ==> title[i] as int > 0x1f && title[i] as int != 0x7f
  }

  /** A file name under `documents/` with the Markdown extension and no two dots in a row. */
  predicate IsMarkdownPath(path: string) {
    |path| >= 14 && StartsWith(path, "documents/") && path[|path| - 3..] == ".md" &&
    IsAlphanumeric(path[10]) &&
    (forall i :: 10 < i < |path| - 3 ==> IsAlphanumeric(path[i]) || path[i] in "._-") &&
    forall i :: 0 < i < |path| ==> !(path[i - 1] == '.' && path[i] == '.')
  }

  predicate IsPageDimension(value: real) {
    0.0 < value <= MAX_DOCUMENT_PDF_PAGE_DIMENSION
  }

  /** What is wrong with one leaf on its own, if anything. */
  function LeafFault(leaf: Leaf): Option<DocumentSetError> {
    if !IsUuidV7(leaf.id) then Some(IdInvalid)
    else if !(0 <= leaf.position < MAX_DOCUMENT_SET_SIZE) then Some(PositionInvalid)
    else if !IsTitle(leaf.title) then Some(TitleInvalid)
    else match leaf
      case Markdown(_, _, _, path, contentSha256) =>
        if !IsMarkdownPath(path) then Some(PathInvalid)
        else if !IsSha256(contentSha256) then Some(ContentDigestInvalid)
        else None
      case Pdf(_, _, _, sha256, byteSize, pageCount, pageWidth, pageHeight) =>
        if !IsSha256(sha256) then Some(PdfDigestInvalid)
        else if !(0 < byteSize <= MAX_DOCUMENT_PDF_BYTES) then Some(PdfSizeInvalid)
        else if !(1 <= pageCount <= MAX_DOCUMENT_PDF_PAGES) then Some(PdfPageCountInvalid)
        else if !IsPageDimension(pageWidth) || !IsPageDimension(pageHeight) then Some(PdfPageSizeInvalid)
        else None
  }

  // ----- Valid sets -----

  predicate HasPath(leaves: seq<Leaf>, path: string) {
    exists i :: 0 <= i < |leaves| && leaves[i].Markdown? && leaves[i].path == path
  }

  /** What is wrong at one index, given the leaves before it. */
  function FaultAt(leaves: seq<Leaf>, i: nat): Option<DocumentSetError>
    requires i < |leaves|
  {
    var leaf := leaves[i];
    if LeafFault(leaf).Some? then LeafFault(leaf)
    else if leaf.position != i then Some(PositionsNotContiguous)
    else if HasId(leaves[..i], leaf.id) then Some(IdsNotUnique)
    else if leaf.Markdown? && HasPath(leaves[..i], leaf.path) then Some(PathsNotUnique)
    else None
  }

  /** The first fault from an index on. */
  function FaultFrom(leaves: seq<Leaf>, i: nat): Option<DocumentSetError>
    requires i <= |leaves|
    decreases |leaves| - i
  {
    if i == |leaves| then None
    else if FaultAt(leaves, i).Some? then FaultAt(leaves, i)
    else FaultFrom(leaves, i + 1)
  }

  /** The fault that is reported for a manifest, if any. */
  function Fault(m: Manifest): Option<DocumentSetError> {
    if m.schema != DOCUMENT_SET_SCHEMA then Some(SchemaUnsupported)
    else if |m.documents| < 1 || |m.documents| > MAX_DOCUMENT_SET_SIZE then Some(SizeOutOfRange)
    else FaultFrom(m.documents, 0)
  }

  ghost predicate UniquePaths(leaves: seq<Leaf>) {
    forall i, j :: 0 <= i < j < |leaves| && leaves[i].Markdown? && leaves[j].Markdown? ==>
      leaves[i].path != leaves[j].path
  }

  /** Contiguous positions in array order, unique ids, unique Markdown paths, valid leaves. */
  ghost predicate ValidLeaves(leaves: seq<Leaf>) {
    && 1 <= |leaves| <= MAX_DOCUMENT_SET_SIZE
    && (forall i :: 0 <= i < |leaves| ==> LeafFault(leaves[i]).None? && leaves[i].position == i)
    && UniqueIds(leaves)
    && UniquePaths(leaves)
  }

  ghost predicate Valid(m: Manifest) {
    m.schema == DOCUMENT_SET_SCHEMA && ValidLeaves(m.documents)
  }

  lemma {:induction false} NoFaultFrom(leaves: seq<Leaf>, i: nat)
    requires i <= |leaves|
    ensures FaultFrom(leaves, i).None? <==> forall j :: i <= j < |leaves| ==> FaultAt(leaves, j).None?
    decreases |leaves| - i
  {
    if i < |leaves| {
      NoFaultFrom(leaves, i + 1);
    }
  }

  lemma FaultAtMeans(leaves: seq<Leaf>, i: nat)
    requires i < |leaves|
    ensures FaultAt(leaves, i).None? <==>
      && LeafFault(leaves[i]).None? && leaves[i].position == i
      && (forall j :: 0 <= j < i ==> leaves[j].id != leaves[i].id)
      && (leaves[i].Markdown? ==>
           forall j :: 0 <= j < i && leaves[j].Markdown? ==> leaves[j].path != leaves[i].path)
  {
    assert forall j :: 0 <= j < i ==> leaves[..i][j] == leaves[j];
  }

  /** A manifest has no fault exactly when it is valid. */
  lemma FaultlessIsValid(m: Manifest)
    ensures Fault(m).None? <==> Valid(m)
  {
    var leaves := m.documents;
    NoFaultFrom(leaves, 0);
    forall i | 0 <= i < |leaves|
      ensures FaultAt(leaves, i).None? <==>
        && LeafFault(leaves[i]).None? && leaves[i].position == i
        && (forall j :: 0 <= j < i ==> leaves[j].id != leaves[i].id)
        && (leaves[i].Markdown? ==>
             forall j :: 0 <= j < i && leaves[j].Markdown? ==> leaves[j].path != leaves[i].path)
    {
      FaultAtMeans(leaves, i);
    }
  }

  /** Checks a manifest leaf by leaf, remembering the ids and paths already seen. */
  method AssertDocumentSet(m: Manifest) returns (fault: Option<DocumentSetError>)
    ensures fault == Fault(m)
    ensures fault.None? <==> Valid(m)
  {
    FaultlessIsValid(m);
    NothingSeen(m.documents);
    hide Valid, LeafFault, HasId, HasPath;
    if m.schema != DOCUMENT_SET_SCHEMA { return Some(SchemaUnsupported); }
    if |m.documents| < 1 || |m.documents| > MAX_DOCUMENT_SET_SIZE { return Some(SizeOutOfRange); }
    var ids: set<string>, markdownPaths: set<string> := {}, {};
    for index := 0 to |m.documents|
      invariant Fault(m) == FaultFrom(m.documents, index)
      invariant forall id :: id in ids <==> HasId(m.documents[..index], id)
      invariant forall path :: path in markdownPaths <==> HasPath(m.documents[..index], path)
    {
      var leaf := m.documents[index];
      SeenSnoc(m.documents, index);
      if LeafFault(leaf).Some? { return LeafFault(leaf); }
      if leaf.position != index { return Some(PositionsNotContiguous); }
      if leaf.id in ids { return Some(IdsNotUnique); }
      ids := ids + {leaf.id};
      if leaf.Markdown? {
        if leaf.path in markdownPaths { return Some(PathsNotUnique); }
        markdownPaths := markdownPaths + {leaf.path};
      }
    }
    fault := None;
  }

  lemma NothingSeen(leaves: seq<Leaf>)
    ensures forall id :: !HasId(leaves[..0], id)
    ensures forall path :: !HasPath(leaves[..0], path)
  {
  }

  lemma SeenSnoc(leaves: seq<Leaf>, i: nat)
    requires i < |leaves|
    ensures forall id :: HasId(leaves[..i + 1], id) <==> HasId(leaves[..i], id) || id == leaves[i].id
    ensures forall path :: HasPath(leaves[..i + 1], path) <==>
      HasPath(leaves[..i], path) || (leaves[i].Markdown? && path == leaves[i].path)
  {
    var a, b := leaves[..i], leaves[..i + 1];
    assert b[i] == leaves[i] && forall k :: 0 <= k < i ==> b[k] == a[k];
    forall id
      ensures HasId(b, id) <==> HasId(a, id) || id == leaves[i].id
    {
      if HasId(a, id) {
        var k :| 0 <= k < i && a[k].id == id;
        assert b[k].id == id;
      }
    }
    forall path
      ensures HasPath(b, path) <==> HasPath(a, path) || (leaves[i].Markdown? && path == leaves[i].path)
    {
      if HasPath(a, path) {
        var k :| 0 <= k < i && a[k].Markdown? && a[k].path == path;
        assert b[k].path == path;
      }
    }
  }

  // ----- Renumbering -----

  function Renumbered(leaves: seq<Leaf>): (r: seq<Leaf>)
    ensures |r| == |leaves|
    ensures forall i :: 0 <= i < |leaves| ==> r[i] == At(leaves[i], i)
  {
    seq(|leaves|, i requires 0 <= i < |leaves| => At(leaves[i], i))
  }

  /** Renumbers and checks: the last step of every edit. */
  function Sealed(leaves: seq<Leaf>): Result<Manifest, DocumentSetError> {
    var next := Manifest(DOCUMENT_SET_SCHEMA, Renumbered(leaves));
    match Fault(next) case Some(e) => Err(e) case None => Ok(next)
  }

  /** Two lists of leaves that differ at most in their positions. */
  ghost predicate SameUpToPosition(a: seq<Leaf>, b: seq<Leaf>) {
    |a| == |b| && forall i :: 0 <= i < |a| ==> At(a[i], 0) == At(b[i], 0)
  }

  lemma SameRenumbering(a: seq<Leaf>, b: seq<Leaf>)
    requires SameUpToPosition(a, b)
    ensures Renumbered(a) == Renumbered(b) && Sealed(a) == Sealed(b)
  {
    forall i | 0 <= i < |a|
      ensures Renumbered(a)[i] == Renumbered(b)[i]
    {
      assert At(At(a[i], 0), i) == At(At(b[i], 0), i);
    }
  }

  /** A valid set is already numbered, so sealing it changes nothing. */
  lemma SealingValid(m: Manifest)
    requires Valid(m)
    ensures Sealed(m.documents) == Ok(m)
  {
    assert Renumbered(m.documents) == m.documents;
    FaultlessIsValid(m);
  }

  /** A sealed set is valid and keeps the leaves in order. */
  lemma SealedIs(leaves: seq<Leaf>)
    ensures Sealed(leaves).Ok? <==> ValidLeaves(Renumbered(leaves))
    ensures Sealed(leaves).Ok? ==>
      Valid(Sealed(leaves).value) && SameUpToPosition(Sealed(leaves).value.documents, leaves)
      && Ids(Sealed(leaves).value.documents) == Ids(leaves)
  {
    FaultlessIsValid(Manifest(DOCUMENT_SET_SCHEMA, Renumbered(leaves)));
    if Sealed(leaves).Ok? {
      forall i | 0 <= i < |leaves|
        ensures At(Renumbered(leaves)[i], 0) == At(leaves[i], 0)
      {
      }
    }
  }

  method Renumber(leaves: seq<Leaf>) returns (r: Result<Manifest, DocumentSetError>)
    ensures r == Sealed(leaves)
  {
    var next := Manifest(DOCUMENT_SET_SCHEMA, Renumbered(leaves));
    var fault := AssertDocumentSet(next);
    match fault
    case Some(e) => r := Err(e);
    case None => r := Ok(next);
  }
}
