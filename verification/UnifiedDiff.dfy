/**
 The whole way from two texts to a unified diff, and what the diff does when it is read back and
 applied: to the lines always, to the text exactly when the two texts agree (`TextsAgree`).
 */
module UnifiedDiff {
  import opened Wrappers
  import opened Text
  import opened Decimal
  import opened EditScript
  import opened LineDiff
  import ScriptOrder
  import opened Hunks
  import opened Patch
  import opened FinalNewline
  import opened LastLines
  import opened UnifiedFormat

  // ----- Markers by line number are markers by position -----

  lemma NumberStep(edit: Script, i: nat)
    requires i < |edit|
    ensures |OldSide(edit)| == |OldSide(edit[..i])| + |OldPart(edit[i])| + |OldSide(edit[i + 1..])|
    ensures |NewSide(edit)| == |NewSide(edit[..i])| + |NewPart(edit[i])| + |NewSide(edit[i + 1..])|
    ensures |OldSide(edit[..i + 1])| == |OldSide(edit[..i])| + |OldPart(edit[i])|
    ensures |NewSide(edit[..i + 1])| == |NewSide(edit[..i])| + |NewPart(edit[i])|
  {
    assert edit[..i + 1] == edit[..i] + [edit[i]];
    assert edit == edit[..i + 1] + edit[i + 1..];
    Snoc(edit[..i], edit[i]);
    SidesAppend(edit[..i + 1], edit[i + 1..]);
  }

  lemma MarkerByNumber(edit: Script, i: nat, ends: Ends)
    requires i < |edit| && ends.oldCount == |OldSide(edit)| && ends.newCount == |NewSide(edit)|
    ensures MarkerFollows(edit[i], |OldSide(edit[..i])| + 1, |NewSide(edit[..i])| + 1, ends)
        <==> Marked(edit, i, ends.oldOpen, ends.newOpen)
    ensures NextOld(edit[i], |OldSide(edit[..i])| + 1) == |OldSide(edit[..i + 1])| + 1
    ensures NextNew(edit[i], |NewSide(edit[..i])| + 1) == |NewSide(edit[..i + 1])| + 1
  {
    NumberStep(edit, i);
  }

  lemma {:induction false} MarkersKeepLines(lines: Script, oldNumber: nat, newNumber: nat, ends: Ends)
    ensures PlainLines(WithMarkers(lines, oldNumber, newNumber, ends)) == lines
    decreases |lines|
  {
    if lines != [] {
      MarkersKeepLines(lines[1..], NextOld(lines[0], oldNumber), NextNew(lines[0], newNumber), ends);
      var tail := WithMarkers(lines[1..], NextOld(lines[0], oldNumber), NextNew(lines[0], newNumber), ends);
      assert WithMarkers(lines, oldNumber, newNumber, ends)[1..] == tail;
      assert forall i :: 1 <= i < |lines| ==>
        PlainLines(WithMarkers(lines, oldNumber, newNumber, ends))[i] == PlainLines(tail)[i - 1];
    }
  }

  /** The numbers printing has reached at line `k` count the lines before it on each side. */
  lemma {:induction false} MarkerAt(lines: Script, o: nat, n: nat, ends: Ends, k: nat)
    requires k < |lines|
    ensures WithMarkers(lines, o, n, ends)[k] == MarkedText(lines[k],
      MarkerFollows(lines[k], o + |OldSide(lines[..k])|, n + |NewSide(lines[..k])|, ends))
  {
    hide MarkerFollows;
    if k > 0 {
      var line, tail := lines[0], lines[1..];
      MarkerAt(tail, NextOld(line, o), NextNew(line, n), ends, k - 1);
      assert lines[..k] == [line] + tail[..k - 1];
      assert [line] + tail[..k - 1] != [] && ([line] + tail[..k - 1])[1..] == tail[..k - 1];
    }
  }

  /** The markers printed with a slice are the ones its positions in the script call for. */
  lemma SliceMarkers(edit: Script, i: nat, j: nat, ends: Ends, k: nat)
    requires i <= k < j <= |edit| && ends.oldCount == |OldSide(edit)| && ends.newCount == |NewSide(edit)|
    ensures WithMarkers(edit[i..j], |OldSide(edit[..i])| + 1, |NewSide(edit[..i])| + 1, ends)[k - i]
         == MarkedText(edit[k], Marked(edit, k, ends.oldOpen, ends.newOpen))
  {
    hide Marked, MarkerFollows, WithMarkers, OldSide, NewSide;
    var lines, o, n := edit[i..j], |OldSide(edit[..i])| + 1, |NewSide(edit[..i])| + 1;
    var at := k - i;
    NumbersInSlice(edit, i, j, k, lines, at);
    MarkerAt(lines, o, n, ends, at);
    var oldNumber, newNumber := |OldSide(edit[..k])| + 1, |NewSide(edit[..k])| + 1;
    assert oldNumber == o + |OldSide(lines[..at])| && newNumber == n + |NewSide(lines[..at])|;
    assert MarkerFollows(lines[at], o + |OldSide(lines[..at])|, n + |NewSide(lines[..at])|, ends)
        == MarkerFollows(edit[k], oldNumber, newNumber, ends);
    MarkerByNumber(edit, k, ends);
  }

  lemma NumbersInSlice(edit: Script, i: nat, j: nat, k: nat, lines: Script, at: nat)
    requires i <= k < j <= |edit| && lines == edit[i..j] && at == k - i
    ensures at < |lines| && lines[at] == edit[k]
    ensures |OldSide(edit[..i])| + |OldSide(lines[..at])| == |OldSide(edit[..k])|
    ensures |NewSide(edit[..i])| + |NewSide(lines[..at])| == |NewSide(edit[..k])|
  {
    hide OldSide, NewSide;
    SliceSides(edit, i, k);
    assert lines[..at] == edit[i..k];
  }

  lemma ChunksOfSlice(edit: Script, i: nat, j: nat, ends: Ends)
    requires i <= j <= |edit| && ends.oldCount == |OldSide(edit)| && ends.newCount == |NewSide(edit)|
    ensures ChunkLines(WithMarkers(edit[i..j], |OldSide(edit[..i])| + 1, |NewSide(edit[..i])| + 1, ends))
         == MarkedScript(edit, ends.oldOpen, ends.newOpen)[i..j]
  {
    var r := WithMarkers(edit[i..j], |OldSide(edit[..i])| + 1, |NewSide(edit[..i])| + 1, ends);
    hide WithMarkers, Marked, OldSide, NewSide, ChunkLines, MarkedScript, SameAt;
    var chunks, s := ChunkLines(r), MarkedScript(edit, ends.oldOpen, ends.newOpen);
    ChunksLength(r);
    forall k | i <= k < j
      ensures SameAt(chunks, s, i, k)
    {
      ChunkOfSlice(edit, i, j, ends, k);
    }
    IsSlice(chunks, s, i, j);
  }

  lemma ChunksLength(r: seq<MarkedText>)
    ensures |ChunkLines(r)| == |r|
  {
  }

  /** The line of a slice that stands at `k` in the whole script. */
  predicate SameAt(slice: Script, whole: Script, i: nat, k: nat) {
    0 <= k - i < |slice| && k < |whole| && slice[k - i] == whole[k]
  }

  lemma IsSlice(slice: Script, whole: Script, i: nat, j: nat)
    requires i <= j <= |whole| && |slice| == j - i && forall k :: i <= k < j ==> SameAt(slice, whole, i, k)
    ensures slice == whole[i..j]
  {
    forall k | 0 <= k < j - i
      ensures slice[k] == whole[i..j][k]
    {
      assert SameAt(slice, whole, i, i + k);
    }
  }

  lemma ChunkOfSlice(edit: Script, i: nat, j: nat, ends: Ends, k: nat)
    requires i <= k < j <= |edit| && ends.oldCount == |OldSide(edit)| && ends.newCount == |NewSide(edit)|
    ensures var r := WithMarkers(edit[i..j], |OldSide(edit[..i])| + 1, |NewSide(edit[..i])| + 1, ends);
            SameAt(ChunkLines(r), MarkedScript(edit, ends.oldOpen, ends.newOpen), i, k)
  {
    hide WithMarkers, Marked, OldSide, NewSide;
    SliceMarkers(edit, i, j, ends, k);
  }

  lemma {:induction false} MarkedSides(edit: Script, other: Script)
    requires |edit| == |other| && forall i :: 0 <= i < |edit| ==> edit[i].kind == other[i].kind
    ensures |OldSide(edit)| == |OldSide(other)| && |NewSide(edit)| == |NewSide(other)|
  {
    if edit != [] {
      MarkedSides(edit[1..], other[1..]);
    }
  }

  /** One hunk read back: with markers ignored it is itself, with terminators it is the marked script's. */
  lemma ReadBackHunk(edit: Script, start: nat, end: nat, ends: Ends)
    requires start <= end <= |edit|
    requires ends.oldCount == |OldSide(edit)| && ends.newCount == |NewSide(edit)|
    ensures var h, r := HunkAt(edit, start, end), ReadOf(HunkAt(edit, start, end), ends);
      && Hunk(r.oldStart, r.oldCount, r.newStart, r.newCount, PlainLines(r.lines)) == h
      && Hunk(r.oldStart, r.oldCount, r.newStart, r.newCount, ChunkLines(r.lines))
         == HunkAt(MarkedScript(edit, ends.oldOpen, ends.newOpen), start, end)
  {
    var h, m := HunkAt(edit, start, end), MarkedScript(edit, ends.oldOpen, ends.newOpen);
    MarkersKeepLines(h.lines, h.oldStart, h.newStart, ends);
    ChunksOfSlice(edit, start, end, ends);
    MarkedSides(edit[..start], m[..start]);
    MarkedSides(edit[start..end], m[start..end]);
  }

  /** Read back, the hunks are the hunks of the script, with and without terminators. */
  lemma ReadBackHunks(edit: Script, spans: seq<Span>, hunks: seq<Hunk>, ends: Ends)
    requires HunksOf(edit, spans, hunks)
    requires ends.oldCount == |OldSide(edit)| && ends.newCount == |NewSide(edit)|
    ensures PlainHunks(ReadOfAll(hunks, ends)) == hunks
    ensures HunksOf(MarkedScript(edit, ends.oldOpen, ends.newOpen), spans, ChunkHunks(ReadOfAll(hunks, ends)))
  {
    forall k | 0 <= k < |hunks|
      ensures PlainHunks(ReadOfAll(hunks, ends))[k] == hunks[k]
      ensures spans[k].start <= spans[k].end <= |edit| && ChunkHunks(ReadOfAll(hunks, ends))[k]
        == HunkAt(MarkedScript(edit, ends.oldOpen, ends.newOpen), spans[k].start, spans[k].end)
    {
      ReadBackHunk(edit, spans[k].start, spans[k].end, ends);
    }
  }

  // ----- Printed lines hold no newline -----

  lemma {:induction false} ScriptNewlineFree(edit: Script)
    requires AllWithout(OldSide(edit), '\n') && AllWithout(NewSide(edit), '\n')
    ensures forall i :: 0 <= i < |edit| ==> Without(edit[i].text, '\n')
  {
    if edit != [] {
      var o, n := OldPart(edit[0]), NewPart(edit[0]);
      var oldTail, newTail := OldSide(edit[1..]), NewSide(edit[1..]);
      assert forall i :: 0 <= i < |oldTail| ==> oldTail[i] == OldSide(edit)[|o| + i];
      assert forall i :: 0 <= i < |newTail| ==> newTail[i] == NewSide(edit)[|n| + i];
      ScriptNewlineFree(edit[1..]);
      assert forall i :: 1 <= i < |edit| ==> edit[i] == edit[1..][i - 1];
      assert edit[0].kind != Addition ==> OldSide(edit)[0] == edit[0].text;
      assert edit[0].kind == Addition ==> NewSide(edit)[0] == edit[0].text;
    }
  }

  lemma DigitsNewlineFree(s: string)
    requires AllDigits(s)
    ensures Without(s, '\n')
  {
  }

  lemma RangeNewlineFree(start: nat, count: nat)
    requires start >= 1
    ensures Without(ShowRange(start, count), '\n')
  {
    DigitsNewlineFree(Show(if count == 0 then start - 1 else start));
    DigitsNewlineFree(Show(count));
  }

  lemma HeaderNewlineFree(h: Hunk)
    requires h.oldStart >= 1 && h.newStart >= 1
    ensures Without(ShowHeader(h), '\n')
  {
    RangeNewlineFree(h.oldStart, h.oldCount);
    RangeNewlineFree(h.newStart, h.newCount);
  }

  lemma {:induction false} LinesNewlineFree(lines: Script, oldNumber: nat, newNumber: nat, ends: Ends)
    requires forall i :: 0 <= i < |lines| ==> Without(lines[i].text, '\n')
    ensures AllWithout(ShowLines(lines, oldNumber, newNumber, ends), '\n')
    decreases |lines|
  {
    if lines != [] {
      LinesNewlineFree(lines[1..], NextOld(lines[0], oldNumber), NextNew(lines[0], newNumber), ends);
      assert AllWithout(ShowLine(lines[0], oldNumber, newNumber, ends), '\n');
    }
  }

  lemma {:induction false} HunksNewlineFree(hunks: seq<Hunk>, ends: Ends)
    requires Numbered(hunks)
    requires forall k, i :: 0 <= k < |hunks| && 0 <= i < |hunks[k].lines| ==> Without(hunks[k].lines[i].text, '\n')
    ensures AllWithout(ShowHunks(hunks, ends), '\n')
  {
    if hunks != [] {
      HeaderNewlineFree(hunks[0]);
      LinesNewlineFree(hunks[0].lines, hunks[0].oldStart, hunks[0].newStart, ends);
      HunksNewlineFree(hunks[1..], ends);
    }
  }

  // ----- The printed diff, read back -----

  /** The diff text of some hunks under two file headers. */
  function ShowDiff(oldHeader: string, newHeader: string, hunks: seq<Hunk>, ends: Ends): seq<string>
    requires Numbered(hunks)
  {
    ["--- " + oldHeader, "+++ " + newHeader] + ShowHunks(hunks, ends)
  }

  lemma HunksOfNumbered(edit: Script, spans: seq<Span>, hunks: seq<Hunk>)
    requires HunksOf(edit, spans, hunks)
    ensures Numbered(hunks) && Counted(hunks)
  {
    forall k | 0 <= k < |hunks|
      ensures hunks[k].oldStart >= 1 && hunks[k].newStart >= 1
      ensures hunks[k].oldCount == |OldSide(hunks[k].lines)| && hunks[k].newCount == |NewSide(hunks[k].lines)|
    {
      assert hunks[k] == HunkAt(edit, spans[k].start, spans[k].end);
    }
  }

  lemma ReadShownDiff(oldHeader: string, newHeader: string, edit: Script, spans: seq<Span>, hunks: seq<Hunk>,
                      ends: Ends)
    requires Without(oldHeader, '\n') && Without(newHeader, '\n')
    requires HunksOf(edit, spans, hunks)
    requires forall i :: 0 <= i < |edit| ==> Without(edit[i].text, '\n')
    ensures Numbered(hunks)
    ensures ReadDiff(Join(ShowDiff(oldHeader, newHeader, hunks, ends), "\n") + "\n") == Some(ReadOfAll(hunks, ends))
  {
    HunksOfNumbered(edit, spans, hunks);
    SlicesNewlineFree(edit, spans, hunks);
    HunksNewlineFree(hunks, ends);
    hide HunksOf, ReadHunks, ShowHunks, ReadOfAll, ReadDiff;
    ReadHeadedLines(oldHeader, newHeader, ShowHunks(hunks, ends));
    ReadShownHunks(hunks, ends);
  }

  lemma SlicesNewlineFree(edit: Script, spans: seq<Span>, hunks: seq<Hunk>)
    requires HunksOf(edit, spans, hunks)
    requires forall i :: 0 <= i < |edit| ==> Without(edit[i].text, '\n')
    ensures forall k, i :: 0 <= k < |hunks| && 0 <= i < |hunks[k].lines| ==> Without(hunks[k].lines[i].text, '\n')
  {
    forall k, i | 0 <= k < |hunks| && 0 <= i < |hunks[k].lines|
      ensures Without(hunks[k].lines[i].text, '\n')
    {
      assert hunks[k] == HunkAt(edit, spans[k].start, spans[k].end);
    }
  }

  /** Lines behind two header lines are read as hunks. */
  lemma ReadHeadedLines(oldHeader: string, newHeader: string, rest: seq<string>)
    requires Without(oldHeader, '\n') && Without(newHeader, '\n') && AllWithout(rest, '\n')
    ensures ReadDiff(Join(["--- " + oldHeader, "+++ " + newHeader] + rest, "\n") + "\n") == ReadHunks(rest)
  {
    hide ReadHunks, Join, TextLines;
    var lines := ["--- " + oldHeader, "+++ " + newHeader] + rest;
    assert AllWithout(lines, '\n');
    LinesOfJoined(lines);
    assert lines[0][..4] == "--- " && lines[1][..4] == "+++ ";
    assert lines[2..] == rest;
  }

  lemma LinesOfJoined(lines: seq<string>)
    requires lines != [] && AllWithout(lines, '\n')
    ensures TextLines(Join(lines, "\n") + "\n") == lines
  {
    UnlinesIsJoin(lines);
    TextLinesOfUnlines(lines);
  }

  /** What a faithful diff text does to the two texts it was made from. */
  ghost predicate Faithful(unified: string, oldText: string, newText: string) {
    && ApplyToLines(unified, TextLines(oldText)) == Some(TextLines(newText))
    && UnapplyToLines(unified, TextLines(newText)) == Some(TextLines(oldText))
    && (ApplyToText(unified, oldText) == Some(newText)
        <==> TextsAgree(oldText, newText))
  }

  lemma ReadDiffIsFaithful(unified: string, oldText: string, newText: string, spans: seq<Span>, hunks: seq<Hunk>)
    requires Covers(EditLines(oldText, newText), spans, 0) && HunksOf(EditLines(oldText, newText), spans, hunks)
    requires ReadDiff(unified) == Some(ReadOfAll(hunks, EndsOf(oldText, newText)))
    ensures Faithful(unified, oldText, newText)
  {
    var edit, ends := EditLines(oldText, newText), EndsOf(oldText, newText);
    EditLinesTransform(oldText, newText);
    ReadBackHunks(edit, spans, hunks, ends);
    ApplyYieldsNew(edit, spans, hunks);
    ApplyReverseYieldsOld(edit, spans, hunks);
    AppliesExactlyWhen(oldText, newText, edit, spans, ChunkHunks(ReadOfAll(hunks, ends)));
    FinalLinesAgreeExactlyWhen(oldText, newText);
  }

  /** The header line of a hunk. */
  method PrintHeader(hunk: Hunk) returns (line: string)
    requires hunk.oldStart >= 1 && hunk.newStart >= 1
    ensures line == ShowHeader(hunk)
  {
    hide Show;
    var oldStart: nat := if hunk.oldCount == 0 then hunk.oldStart - 1 else hunk.oldStart;
    var newStart: nat := if hunk.newCount == 0 then hunk.newStart - 1 else hunk.newStart;
    var oldRange := if hunk.oldCount == 1 then Show(oldStart) else Show(oldStart) + "," + Show(hunk.oldCount);
    var newRange := if hunk.newCount == 1 then Show(newStart) else Show(newStart) + "," + Show(hunk.newCount);
    assert oldRange == ShowRange(hunk.oldStart, hunk.oldCount);
    assert newRange == ShowRange(hunk.newStart, hunk.newCount);
    line := "@@ -" + oldRange + " +" + newRange + " @@";
  }

  /** One hunk line, and the marker if it is the last line of a text without a final newline. */
  method PrintLine(output0: seq<string>, line: DiffLine, oldLineNumber: nat, newLineNumber: nat, ends: Ends)
    returns (output: seq<string>)
    ensures output == output0 + ShowLine(line, oldLineNumber, newLineNumber, ends)
    ensures |output| > |output0| && output[|output0|] == (match line.kind
      case Addition => "+" + line.text case Deletion => "-" + line.text case Context => " " + line.text)
    ensures output[|output0| + 1..] == [] || output[|output0| + 1..] == ["\\ No newline at end of file"]
  {
    var prefix := if line.kind == Addition then '+' else if line.kind == Deletion then '-' else ' ';
    output := output0 + [[prefix] + line.text];
    var oldLast := line.kind != Addition && oldLineNumber == ends.oldCount;
    var newLast := line.kind != Deletion && newLineNumber == ends.newCount;
    if (oldLast && ends.oldOpen) || (newLast && ends.newOpen) {
      output := output + [NO_NEWLINE];
    }
  }

  /** Printing a hunk: its header, then its lines with the markers their numbers call for. */
  method PrintHunk(output0: seq<string>, hunk: Hunk, ends: Ends) returns (output: seq<string>)
    requires hunk.oldStart >= 1 && hunk.newStart >= 1
    ensures output == output0 + ShowHunk(hunk, ends)
  {
    hide ShowRange, MarkerFollows;
    var header := PrintHeader(hunk);
    output := output0 + [header];
    var oldLineNumber, newLineNumber := hunk.oldStart, hunk.newStart;
    ghost var whole := output0 + ShowHunk(hunk, ends);
    assert hunk.lines[0..] == hunk.lines;
    Regroup(output0, [header], ShowLines(hunk.lines, oldLineNumber, newLineNumber, ends));
    for l := 0 to |hunk.lines|
      invariant output + ShowLines(hunk.lines[l..], oldLineNumber, newLineNumber, ends) == whole
    {
      var line := hunk.lines[l];
      assert hunk.lines[l..][0] == line && hunk.lines[l..][1..] == hunk.lines[l + 1..];
      Regroup(output, ShowLine(line, oldLineNumber, newLineNumber, ends),
              ShowLines(hunk.lines[l + 1..], NextOld(line, oldLineNumber), NextNew(line, newLineNumber), ends));
      output := PrintLine(output, line, oldLineNumber, newLineNumber, ends);
      if line.kind != Addition { oldLineNumber := oldLineNumber + 1; }
      if line.kind != Deletion { newLineNumber := newLineNumber + 1; }
    }
    assert hunk.lines[|hunk.lines|..] == [];
    assert output + [] == output;
  }

  /** Printing the file headers and every hunk. */
  method PrintDiff(oldHeader: string, newHeader: string, hunks: seq<Hunk>, ends: Ends) returns (output: seq<string>)
    requires Numbered(hunks)
    ensures output == ShowDiff(oldHeader, newHeader, hunks, ends)
  {
    output := ["--- " + oldHeader, "+++ " + newHeader];
    ghost var whole := ShowDiff(oldHeader, newHeader, hunks, ends);
    assert hunks[0..] == hunks;
    for k := 0 to |hunks|
      invariant output + ShowHunks(hunks[k..], ends) == whole
    {
      assert hunks[k..][0] == hunks[k] && hunks[k..][1..] == hunks[k + 1..];
      Regroup(output, ShowHunk(hunks[k], ends), ShowHunks(hunks[k + 1..], ends));
      output := PrintHunk(output, hunks[k], ends);
    }
    assert hunks[|hunks|..] == [];
    assert output + [] == output;
  }

  /** The name of the old side: the null device for a new file. */
  function OldHeader(oldText: string, newText: string, oldPath: string): string {
    if oldText == "" && newText != "" then "/dev/null" else "a/" + oldPath
  }

  function NewHeader(oldText: string, newText: string, filePath: string): string {
    if oldText != "" && newText == "" then "/dev/null" else "b/" + filePath
  }

  /** The printed hunks of the right cut of the script at a width; nothing for texts with the same lines. */
  ghost predicate IsUnifiedDiff(unified: string, filePath: string, oldText: string, newText: string,
                                contextLines: int, oldPath: string)
  {
    if Changes(EditLines(oldText, newText)) == 0 then unified == ""
    else exists spans, hunks :: IsPrinted(unified, filePath, oldText, newText, contextLines, oldPath, spans, hunks)
  }

  ghost predicate IsPrinted(unified: string, filePath: string, oldText: string, newText: string, contextLines: int,
                            oldPath: string, spans: seq<Span>, hunks: seq<Hunk>)
  {
    && Hunking(EditLines(oldText, newText), contextLines, spans)
    && HunksOf(EditLines(oldText, newText), spans, hunks)
    && unified == Join(ShowDiff(OldHeader(oldText, newText, oldPath), NewHeader(oldText, newText, filePath), hunks,
                                EndsOf(oldText, newText)), "\n") + "\n"
  }

  /** Two texts, their paths and a width determine the diff. */
  lemma UnifiedDiffUnique(u: string, v: string, filePath: string, oldText: string, newText: string,
                          contextLines: int, oldPath: string)
    requires IsUnifiedDiff(u, filePath, oldText, newText, contextLines, oldPath)
    requires IsUnifiedDiff(v, filePath, oldText, newText, contextLines, oldPath)
    ensures u == v
  {
    hide Hunking;
    var edit := EditLines(oldText, newText);
    if Changes(edit) != 0 {
      var spans, hunks :| IsPrinted(u, filePath, oldText, newText, contextLines, oldPath, spans, hunks);
      var spans', hunks' :| IsPrinted(v, filePath, oldText, newText, contextLines, oldPath, spans', hunks');
      HunkingUnique(edit, contextLines, spans, spans');
      assert hunks == hunks';
    }
  }

  lemma StartsWithDash(unified: string, filePath: string, oldText: string, newText: string, contextLines: int,
                       oldPath: string)
    requires IsUnifiedDiff(unified, filePath, oldText, newText, contextLines, oldPath)
    ensures unified == "" || unified[0] == '-'
  {
    hide Hunking, EditLines, HunksOf, Changes;
    if Changes(EditLines(oldText, newText)) != 0 {
      var spans, hunks :| IsPrinted(unified, filePath, oldText, newText, contextLines, oldPath, spans, hunks);
      HunksOfNumbered(EditLines(oldText, newText), spans, hunks);
      var oldHeader, newHeader := OldHeader(oldText, newText, oldPath), NewHeader(oldText, newText, filePath);
      PrintedStartsWithDash(oldHeader, newHeader, hunks, EndsOf(oldText, newText));
    }
  }

  lemma PrintedStartsWithDash(oldHeader: string, newHeader: string, hunks: seq<Hunk>, ends: Ends)
    requires Numbered(hunks)
    ensures var unified := Join(ShowDiff(oldHeader, newHeader, hunks, ends), "\n") + "\n";
            unified != "" && unified[0] == '-'
  {
    hide ShowHunks;
    var lines := ShowDiff(oldHeader, newHeader, hunks, ends);
    assert lines[0] == "--- " + oldHeader && |lines| >= 2;
    JoinStarts(lines, "\n");
  }

  lemma JoinStarts(parts: seq<string>, sep: string)
    requires |parts| >= 2 && parts[0] != ""
    ensures Join(parts, sep) != "" && Join(parts, sep)[0] == parts[0][0]
  {
  }

  /** The first two lines name the files: the null device on a side without text, else a path behind `a/` or `b/`. */
  predicate NamesFiles(unified: string, oldText: string, newText: string, filePath: string, oldPath: string) {
    var lines := TextLines(unified);
    && |lines| >= 2
    && lines[0] == (if oldText == "" then "--- /dev/null" else "--- a/" + oldPath)
    && lines[1] == (if newText == "" then "+++ /dev/null" else "+++ b/" + filePath)
  }

  lemma PrintedNamesFiles(unified: string, filePath: string, oldText: string, newText: string,
                          contextLines: int, oldPath: string)
    requires IsUnifiedDiff(unified, filePath, oldText, newText, contextLines, oldPath) && unified != ""
    requires Without(filePath, '\n') && Without(oldPath, '\n')
    ensures NamesFiles(unified, oldText, newText, filePath, oldPath)
  {
    EqualTextsUnchanged(oldText, newText);
    hide Hunking, HunksOf, TextLines, Join, EditLines, Changes, NamesFiles, OldHeader, NewHeader, ShowDiff;
    var edit, ends := EditLines(oldText, newText), EndsOf(oldText, newText);
    var spans, hunks :| IsPrinted(unified, filePath, oldText, newText, contextLines, oldPath, spans, hunks);
    TextScriptNewlineFree(oldText, newText);
    HunksOfNumbered(edit, spans, hunks);
    SlicesNewlineFree(edit, spans, hunks);
    HeadersNewlineFree(oldText, newText, oldPath, filePath);
    ShownHeaders(OldHeader(oldText, newText, oldPath), NewHeader(oldText, newText, filePath), hunks, ends);
    HeadersNameFiles(unified, oldText, newText, filePath, oldPath);
  }

  lemma ShownHeaders(oldHeader: string, newHeader: string, hunks: seq<Hunk>, ends: Ends)
    requires Without(oldHeader, '\n') && Without(newHeader, '\n') && Numbered(hunks)
    requires forall k, i :: 0 <= k < |hunks| && 0 <= i < |hunks[k].lines| ==> Without(hunks[k].lines[i].text, '\n')
    ensures var lines := TextLines(Join(ShowDiff(oldHeader, newHeader, hunks, ends), "\n") + "\n");
            |lines| >= 2 && lines[0] == "--- " + oldHeader && lines[1] == "+++ " + newHeader
  {
    HunksNewlineFree(hunks, ends);
    hide ShowHunks, TextLines, Join;
    var lines := ShowDiff(oldHeader, newHeader, hunks, ends);
    assert lines[0] == "--- " + oldHeader && lines[1] == "+++ " + newHeader;
    assert AllWithout(lines, '\n');
    LinesOfJoined(lines);
  }

  lemma HeadersNameFiles(unified: string, oldText: string, newText: string, filePath: string, oldPath: string)
    requires oldText != newText
    requires var lines := TextLines(unified);
             && |lines| >= 2 && lines[0] == "--- " + OldHeader(oldText, newText, oldPath)
             && lines[1] == "+++ " + NewHeader(oldText, newText, filePath)
    ensures NamesFiles(unified, oldText, newText, filePath, oldPath)
  {
    hide TextLines;
    HeaderLine("--- ", "a/", "--- a/", oldPath);
    HeaderLine("+++ ", "b/", "+++ b/", filePath);
  }

  lemma HeaderLine(dashes: string, side: string, both: string, path: string)
    requires dashes + side == both
    ensures dashes + (side + path) == both + path
  {
  }

  lemma EqualTextsUnchanged(oldText: string, newText: string)
    ensures oldText == newText ==> Changes(EditLines(oldText, newText)) == 0
  {
    SidesAllOf(TextLines(oldText), Context);
  }

  lemma TextScriptNewlineFree(oldText: string, newText: string)
    ensures forall i :: 0 <= i < |EditLines(oldText, newText)| ==> Without(EditLines(oldText, newText)[i].text, '\n')
  {
    EditLinesTransform(oldText, newText);
    TextLinesNewlineFree(oldText);
    TextLinesNewlineFree(newText);
    ScriptNewlineFree(EditLines(oldText, newText));
  }

  /** A unified diff with newline-free paths is faithful to its texts, and empty only without changed lines. */
  lemma UnifiedDiffIsFaithful(unified: string, filePath: string, oldText: string, newText: string,
                              contextLines: int, oldPath: string)
    requires IsUnifiedDiff(unified, filePath, oldText, newText, contextLines, oldPath)
    ensures unified == "" <==> Changes(EditLines(oldText, newText)) == 0
    ensures Without(filePath, '\n') && Without(oldPath, '\n') ==> Faithful(unified, oldText, newText)
  {
    hide Hunking, Faithful;
    var edit := EditLines(oldText, newText);
    if Changes(edit) == 0 {
      NothingToPrint(oldText, newText);
    } else {
      var spans, hunks :| IsPrinted(unified, filePath, oldText, newText, contextLines, oldPath, spans, hunks);
      HunkingCovers(edit, contextLines, spans);
      HunksOfNumbered(edit, spans, hunks);
      HeadersNewlineFree(oldText, newText, oldPath, filePath);
      if Without(filePath, '\n') && Without(oldPath, '\n') {
        PrintedDiffIsFaithful(OldHeader(oldText, newText, oldPath), NewHeader(oldText, newText, filePath),
                              oldText, newText, spans, hunks);
      }
    }
  }

  /**
   Formats the difference of two texts as a unified diff. With newline-free paths the diff, read back
   and applied, turns the old lines into the new and back, and the old text into the new exactly when
   the two texts agree at their ends.
   */
  method FormatUnifiedDiff(filePath: string, oldText: string, newText: string, contextLines: int, oldPath: string)
    returns (unified: string, additions: nat, deletions: nat)
    ensures additions == Count(EditLines(oldText, newText), Addition)
    ensures deletions == Count(EditLines(oldText, newText), Deletion)
    ensures unified == "" <==> additions == 0 && deletions == 0
    ensures IsUnifiedDiff(unified, filePath, oldText, newText, contextLines, oldPath)
    ensures Without(filePath, '\n') && Without(oldPath, '\n') ==> Faithful(unified, oldText, newText)
    ensures Without(filePath, '\n') && Without(oldPath, '\n') && unified != "" ==>
      NamesFiles(unified, oldText, newText, filePath, oldPath)
  {
    hide Hunking, Faithful, NamesFiles, Covers, EditLines, Changes, HunksOf, ShowDiff, TextLines, EndsOf;
    hide ScriptOrder.Preferred, ScriptOrder.DeletionsFirst, ScriptOrder.Replaces, WithinMatrixLimit, Transforms;
    var lines;
    lines, additions, deletions := ComputeLineDiff(oldText, newText);
    ChangesAreCounted(lines);
    if additions == 0 && deletions == 0 {
      DiffFacts("", filePath, oldText, newText, contextLines, oldPath);
      return "", 0, 0;
    }
    var hunks; ghost var spans;
    hunks, spans := BuildUnifiedHunks(lines, contextLines);
    HunkingCovers(lines, contextLines, spans);
    HunksOfNumbered(lines, spans, hunks);
    // The early return of the source for an empty hunk list is never taken: there is a change to show.
    SomethingToPrint(lines, spans);
    unified := PrintText(filePath, oldText, newText, oldPath, hunks);
    assert IsPrinted(unified, filePath, oldText, newText, contextLines, oldPath, spans, hunks);
    DiffFacts(unified, filePath, oldText, newText, contextLines, oldPath);
  }

  lemma ChangesAreCounted(lines: Script)
    ensures Changes(lines) == Count(lines, Addition) + Count(lines, Deletion)
  {
  }

  /** Prints the hunks under the two headers, for texts that differ. */
  method PrintText(filePath: string, oldText: string, newText: string, oldPath: string, hunks: seq<Hunk>)
    returns (unified: string)
    requires Numbered(hunks)
    ensures unified == Join(ShowDiff(OldHeader(oldText, newText, oldPath), NewHeader(oldText, newText, filePath), hunks,
                                     EndsOf(oldText, newText)), "\n") + "\n"
  {
    hide ShowDiff, TextLines;
    var isNew := |oldText| == 0 && |newText| > 0;
    var isDeleted := |oldText| > 0 && |newText| == 0;
    var oldHeader := if isNew then "/dev/null" else "a/" + oldPath;
    var newHeader := if isDeleted then "/dev/null" else "b/" + filePath;
    var ends := Ends(|TextLines(oldText)|, |TextLines(newText)|,
                     |oldText| > 0 && !EndsWith(oldText, '\n'), |newText| > 0 && !EndsWith(newText, '\n'));
    assert ends == EndsOf(oldText, newText);
    var output := PrintDiff(oldHeader, newHeader, hunks, ends);
    unified := Join(output, "\n") + "\n";
  }

  lemma DiffFacts(unified: string, filePath: string, oldText: string, newText: string, contextLines: int,
                  oldPath: string)
    requires IsUnifiedDiff(unified, filePath, oldText, newText, contextLines, oldPath)
    ensures unified == "" <==> Changes(EditLines(oldText, newText)) == 0
    ensures Without(filePath, '\n') && Without(oldPath, '\n') ==> Faithful(unified, oldText, newText)
    ensures Without(filePath, '\n') && Without(oldPath, '\n') && unified != "" ==>
      NamesFiles(unified, oldText, newText, filePath, oldPath)
  {
    hide IsUnifiedDiff, Faithful, NamesFiles, EditLines, Changes;
    UnifiedDiffIsFaithful(unified, filePath, oldText, newText, contextLines, oldPath);
    if Without(filePath, '\n') && Without(oldPath, '\n') && unified != "" {
      PrintedNamesFiles(unified, filePath, oldText, newText, contextLines, oldPath);
    }
  }

  lemma HeadersNewlineFree(oldText: string, newText: string, oldPath: string, filePath: string)
    ensures Without(oldPath, '\n') ==> Without(OldHeader(oldText, newText, oldPath), '\n')
    ensures Without(filePath, '\n') ==> Without(NewHeader(oldText, newText, filePath), '\n')
  {
  }

  /** A diff printed under newline-free headers is faithful. */
  lemma PrintedDiffIsFaithful(oldHeader: string, newHeader: string, oldText: string, newText: string,
                              spans: seq<Span>, hunks: seq<Hunk>)
    requires Without(oldHeader, '\n') && Without(newHeader, '\n')
    requires Covers(EditLines(oldText, newText), spans, 0) && HunksOf(EditLines(oldText, newText), spans, hunks)
    requires Numbered(hunks)
    ensures Faithful(Join(ShowDiff(oldHeader, newHeader, hunks, EndsOf(oldText, newText)), "\n") + "\n",
                     oldText, newText)
  {
    var edit, ends := EditLines(oldText, newText), EndsOf(oldText, newText);
    EditLinesTransform(oldText, newText);
    TextLinesNewlineFree(oldText);
    TextLinesNewlineFree(newText);
    ScriptNewlineFree(edit);
    ReadShownDiff(oldHeader, newHeader, edit, spans, hunks, ends);
    ReadDiffIsFaithful(Join(ShowDiff(oldHeader, newHeader, hunks, ends), "\n") + "\n", oldText, newText, spans, hunks);
  }

  lemma NothingToPrint(oldText: string, newText: string)
    requires Changes(EditLines(oldText, newText)) == 0
    ensures Faithful("", oldText, newText)
  {
    var edit := EditLines(oldText, newText);
    NoChangesMeansContext(edit);
    assert ReadOfAll([], EndsOf(oldText, newText)) == [];
    ReadDiffIsFaithful("", oldText, newText, [], []);
  }

  lemma SomethingToPrint(edit: Script, spans: seq<Span>)
    requires Covers(edit, spans, 0) && Changes(edit) > 0
    ensures spans != []
  {
    if spans == [] {
      forall i | 0 <= i < |edit|
        ensures edit[i].kind == Context
      {
        assert !IsChange(edit, i);
      }
      ContextOnly(edit);
    }
  }

  // ----- Texts that do not agree -----

  /** Texts that differ only in the final newline never agree: the diff between them is empty. */
  lemma OnlyFinalNewlineDiffers(oldText: string, newText: string)
    requires oldText != newText && TextLines(oldText) == TextLines(newText)
    requires WithinMatrixLimit(oldText, newText)
    ensures Changes(EditLines(oldText, newText)) == 0
    ensures !TextsAgree(oldText, newText)
  {
    var x := TextLines(oldText);
    SidesAllOf(x, Context);
    EditLinesMinimal(oldText, newText);
    assert Transforms(AllOf(x, Context), x, x);
    NoChangesMeansContext(AllOf(x, Context));
    EditLinesTransform(oldText, newText);
    NothingToPrint(oldText, newText);
    assert Apply(PlainHunks([]), x) == Some(x);
    assert ChunkHunks([]) == [];
    ConcatChunks(oldText);
    assert Chunks(oldText)[0..] == Chunks(oldText);
    assert ApplyToText("", oldText) == Some(oldText);
  }

  lemma {:induction false} NoDeletionsKeepLast(edit: Script)
    requires Count(edit, Deletion) == 0 && OldSide(edit) != []
    ensures LastOldKept(edit)
  {
    if OldSide(edit[1..]) != [] {
      NoDeletionsKeepLast(edit[1..]);
    }
  }

  lemma {:induction false} AddedLastIsNotKept(edit: Script)
    requires edit != [] && Last(edit).kind == Addition
    ensures !LastNewKept(edit) && NewSide(edit) != []
  {
    if |edit| > 1 {
      assert Last(edit[1..]) == Last(edit);
      AddedLastIsNotKept(edit[1..]);
    }
  }

  lemma {:induction false} PrefixIsSubsequence(x: seq<string>, more: seq<string>)
    ensures IsSubsequence(x, x + more)
    decreases |x| + |more|
  {
    if more != [] {
      assert Init(x + more) == x + Init(more);
      PrefixIsSubsequence(x, Init(more));
    } else if x != [] {
      assert x + more == x && Init(x) + [] == Init(x);
      PrefixIsSubsequence(Init(x), []);
    }
  }

  /** Lines appended after a different last line keep every old line and end in an addition. */
  lemma AppendedScript(x: seq<string>, more: seq<string>)
    requires x != [] && more != [] && Last(more) != Last(x)
    ensures var e := Backtrack(x, x + more); LastOldKept(e) && !LastNewKept(e)
  {
    var e := Backtrack(x, x + more);
    PrefixIsSubsequence(x, []);
    assert x + [] == x;
    PrefixIsSubsequence(x, more);
    LcsBounds(x, x, x + more);
    LcsAtMost(x, x + more);
    BacktrackTransforms(x, x + more);
    BacktrackKeeps(x, x + more);
    SideLengths(e);
    NoDeletionsKeepLast(e);
    assert Last(x + more) == Last(more);
    SnocCount(e);
    AddedLastIsNotKept(e);
  }

  lemma SnocCount(edit: Script)
    requires edit != []
    ensures Count(edit, Deletion) == Count(Init(edit), Deletion) + if Last(edit).kind == Deletion then 1 else 0
  {
    assert edit == Init(edit) + [Last(edit)];
    CountAppend(Init(edit), [Last(edit)], Deletion);
  }

  /**
   Two texts that both lack the final newline need not agree: lines appended after a different last
   line keep that line as context, and the one marker printed for it is wrong for the new text.
   */
  lemma AppendedLinesDisagree(oldText: string, newText: string, more: seq<string>)
    requires LacksFinalNewline(oldText) && LacksFinalNewline(newText) && WithinMatrixLimit(oldText, newText)
    requires TextLines(newText) == TextLines(oldText) + more && more != []
    requires TextLines(oldText) != [] && Last(more) != Last(TextLines(oldText))
    ensures !TextsAgree(oldText, newText)
  {
    AppendedScript(TextLines(oldText), more);
    FinalLinesAgreeExactlyWhen(oldText, newText);
  }
}
