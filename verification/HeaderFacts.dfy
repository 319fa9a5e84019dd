/** The header printed for a change, told from the leaves with its document's id in the two revisions. */
module HeaderFacts {
  import opened Wrappers
  import opened Leaves
  import opened Changes
  import opened ChangeFacts
  import opened RevisionDiff
  import Decimal

  /** An integer in decimal. */
  ghost predicate IsNumeral(s: string, n: int) {
    if n < 0 then s == "-" + Decimal.Show(-n) else s == Decimal.Show(n)
  }

  /** The lines behind a header: the titles if they differ, then the positions if they do. */
  ghost predicate AreNotes(notes: string, b: Leaf, h: Leaf) {
    exists from, upTo ::
      IsNumeral(from, b.position) && IsNumeral(upTo, h.position) && AreNotesWith(notes, b, h, from, upTo)
  }

  predicate AreNotesWith(notes: string, b: Leaf, h: Leaf, from: string, upTo: string) {
    notes ==
      (if b.title != h.title then "# Title changed: \"" + b.title + "\" -> \"" + h.title + "\"\n" else "") +
      (if b.position != h.position then "# Order changed: position " + from + " -> " + upTo + "\n" else "")
  }

  lemma NothingBehind(s: string)
    ensures s + "" == s
  {
  }

  /** The header of an added document, Markdown or PDF. */
  lemma AddedHeader(info: ChangeInfo, h: Leaf, base: Documents, head: Documents)
    requires DescribesInfo(info, None, Some(h), base, head)
    ensures h.Markdown? && h.path != "" ==>
      FileHeader(info) == "diff --git a/" + h.path + " b/" + h.path + "\n" + "new file mode 100644\n"
    ensures h.Pdf? ==>
      var file := "documents/document-" + h.id + ".pdf";
      FileHeader(info) == "diff --git a/" + file + " b/" + file + "\n"
                        + ("new binary file (PDF: \"" + h.title + "\")\n")
  {
    NothingBehind("");
    NothingBehind(if h.Markdown? then MarkdownHeader(info, h.path) else PdfHeader(info));
    hide PdfHeader, MarkdownHeader;
    assert Notes(info) == "";
    if h.Markdown? && h.path != "" {
      MarkdownHeaderIs(info, h.path);
    } else if h.Pdf? {
      PdfHeaderIs(info);
    }
  }

  /** The header of a removed document, Markdown or PDF. */
  lemma RemovedHeader(info: ChangeInfo, b: Leaf, base: Documents, head: Documents)
    requires DescribesInfo(info, Some(b), None, base, head)
    ensures b.Markdown? && b.path != "" ==>
      FileHeader(info) == "diff --git a/" + b.path + " b/" + b.path + "\n" + "deleted file mode 100644\n"
    ensures b.Pdf? ==>
      var file := "documents/document-" + b.id + ".pdf";
      FileHeader(info) == "diff --git a/" + file + " b/" + file + "\n"
                        + ("deleted binary file (PDF: \"" + b.title + "\")\n")
  {
    NothingBehind("");
    NothingBehind(if b.Markdown? then MarkdownHeader(info, b.path) else PdfHeader(info));
    hide PdfHeader, MarkdownHeader;
    assert Notes(info) == "";
    if b.Markdown? && b.path != "" {
      MarkdownHeaderIs(info, b.path);
    } else if b.Pdf? {
      PdfHeaderIs(info);
    }
  }

  lemma MarkdownHeaderIs(info: ChangeInfo, path: string)
    ensures info.previousPath.None? && info.addition ==>
      MarkdownHeader(info, path) == "diff --git a/" + path + " b/" + path + "\n" + "new file mode 100644\n"
    ensures info.previousPath.None? && !info.addition && info.removal ==>
      MarkdownHeader(info, path) == "diff --git a/" + path + " b/" + path + "\n" + "deleted file mode 100644\n"
  {
  }

  lemma PdfHeaderIs(info: ChangeInfo)
    ensures var file := "documents/document-" + info.documentId + ".pdf";
      && (info.addition ==>
           PdfHeader(info) == "diff --git a/" + file + " b/" + file + "\n"
                            + ("new binary file (PDF: \"" + info.currentTitle + "\")\n"))
      && (!info.addition && info.removal && info.previousTitle == Some(info.currentTitle) ==>
           PdfHeader(info) == "diff --git a/" + file + " b/" + file + "\n"
                            + ("deleted binary file (PDF: \"" + info.currentTitle + "\")\n"))
  {
  }

  lemma PositionIsNumeral(n: int)
    ensures IsNumeral(ShownPosition(Some(n)), n)
  {
  }

  lemma NotesAre(info: ChangeInfo, b: Leaf, h: Leaf, base: Documents, head: Documents)
    requires DescribesInfo(info, Some(b), Some(h), base, head)
    ensures AreNotes(Notes(info), b, h)
  {
    PositionIsNumeral(b.position);
    PositionIsNumeral(h.position);
    var from, upTo := ShownPosition(Some(b.position)), ShownPosition(Some(h.position));
    NotesFrom(info, b, h, from, upTo);
    hide IsNumeral, AreNotesWith;
  }

  lemma NotesFrom(info: ChangeInfo, b: Leaf, h: Leaf, from: string, upTo: string)
    requires info.titleChanged == (b.title != h.title) && info.orderChanged == (b.position != h.position)
    requires info.previousTitle == Some(b.title) && info.currentTitle == h.title
    requires from == ShownPosition(info.previousPosition) && upTo == ShownPosition(info.currentPosition)
    ensures AreNotesWith(Notes(info), b, h, from, upTo)
  {
    hide ShownPosition;
  }

  /** The header of a Markdown document in both revisions: its paths, the renaming, and what else differs. */
  lemma EditedHeader(info: ChangeInfo, b: Leaf, h: Leaf, base: Documents, head: Documents)
    requires DescribesInfo(info, Some(b), Some(h), base, head) && b.Markdown? && h.Markdown? && h.path != ""
    ensures exists notes :: IsEditedHeader(FileHeader(info), notes, b, h, Differ(b, h, base, head))
  {
    NotesAre(info, b, h, base, head);
    assert IsEditedHeader(FileHeader(info), Notes(info), b, h, Differ(b, h, base, head));
  }

  ghost predicate IsEditedHeader(header: string, notes: string, b: Leaf, h: Leaf, differ: bool)
    requires b.Markdown? && h.Markdown?
  {
    && AreNotes(notes, b, h)
    && header ==
       "diff --git a/" + b.path + " b/" + h.path + "\n" +
       (if b.path == h.path then ""
        else "rename from " + b.path + "\nrename to " + h.path + "\n" +
             (if differ then "" else "similarity index 100%\n")) + notes
  }

  /** The header of a PDF in both revisions: its file name, the two digests if they differ, and what else does. */
  lemma ReplacedHeader(info: ChangeInfo, b: Leaf, h: Leaf, base: Documents, head: Documents)
    requires DescribesInfo(info, Some(b), Some(h), base, head) && b.Pdf? && h.Pdf?
    ensures exists notes :: IsReplacedHeader(FileHeader(info), notes, b, h)
  {
    NotesAre(info, b, h, base, head);
    hide Notes;
    assert IsReplacedHeader(FileHeader(info), Notes(info), b, h);
  }

  ghost predicate IsReplacedHeader(header: string, notes: string, b: Leaf, h: Leaf)
    requires b.Pdf? && h.Pdf?
  {
    var file := "documents/document-" + h.id + ".pdf";
    && AreNotes(notes, b, h)
    && header ==
       "diff --git a/" + file + " b/" + file + "\n" +
       (if b.sha256 == h.sha256 then ""
        else "Binary files differ (PDF: sha256 changed from " + b.sha256 + " to " + h.sha256 + ")\n") + notes
  }
}
