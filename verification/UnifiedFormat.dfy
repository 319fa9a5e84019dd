/**
 The unified-diff text of a set of hunks, a reader for that text, and the proof that reading what was
 printed gives the hunks back with the right markers.
 */
module UnifiedFormat {
  import opened Wrappers
  import opened Text
  import opened Decimal
  import opened EditScript
  import opened Hunks
  import opened Patch

  const NO_NEWLINE := "\\ No newline at end of file"

  /** The line counts and missing final newlines of the two texts a diff is printed for. */
  datatype Ends = Ends(oldCount: nat, newCount: nat, oldOpen: bool, newOpen: bool)

  function EndsOf(oldText: string, newText: string): Ends {
    Ends(|TextLines(oldText)|, |TextLines(newText)|, LacksFinalNewline(oldText), LacksFinalNewline(newText))
  }

  // ----- Printing -----

  function Prefix(kind: Kind): char {
    match kind case Addition => '+' case Deletion => '-' case Context => ' '
  }

  /** A start and a count; a count of one is left out, and an empty range starts one line earlier. */
  function ShowRange(start: nat, count: nat): string
    requires start >= 1
  {
    Show(if count == 0 then start - 1 else start) + if count == 1 then "" else "," + Show(count)
  }

  function ShowHeader(h: Hunk): string
    requires h.oldStart >= 1 && h.newStart >= 1
  {
    "@@ -" + ShowRange(h.oldStart, h.oldCount) + " +" + ShowRange(h.newStart, h.newCount) + " @@"
  }

  /** Does the marker follow a line with these line numbers? */
  predicate MarkerFollows(line: DiffLine, oldNumber: nat, newNumber: nat, ends: Ends) {
    || (line.kind != Addition && oldNumber == ends.oldCount && ends.oldOpen)
    || (line.kind != Deletion && newNumber == ends.newCount && ends.newOpen)
  }

  function ShowLine(line: DiffLine, oldNumber: nat, newNumber: nat, ends: Ends): seq<string> {
    [[Prefix(line.kind)] + line.text] + if MarkerFollows(line, oldNumber, newNumber, ends) then [NO_NEWLINE] else []
  }

  function NextOld(line: DiffLine, oldNumber: nat): nat {
    if line.kind == Addition then oldNumber else oldNumber + 1
  }

  function NextNew(line: DiffLine, newNumber: nat): nat {
    if line.kind == Deletion then newNumber else newNumber + 1
  }

  function ShowLines(lines: Script, oldNumber: nat, newNumber: nat, ends: Ends): seq<string> {
    if lines == [] then []
    else
      ShowLine(lines[0], oldNumber, newNumber, ends) +
      ShowLines(lines[1..], NextOld(lines[0], oldNumber), NextNew(lines[0], newNumber), ends)
  }

  function ShowHunk(h: Hunk, ends: Ends): seq<string>
    requires h.oldStart >= 1 && h.newStart >= 1
  {
    [ShowHeader(h)] + ShowLines(h.lines, h.oldStart, h.newStart, ends)
  }

  predicate Numbered(hunks: seq<Hunk>) {
    forall k :: 0 <= k < |hunks| ==> hunks[k].oldStart >= 1 && hunks[k].newStart >= 1
  }

  function ShowHunks(hunks: seq<Hunk>, ends: Ends): seq<string>
    requires Numbered(hunks)
  {
    if hunks == [] then [] else ShowHunk(hunks[0], ends) + ShowHunks(hunks[1..], ends)
  }

  // ----- Reading -----

  datatype MarkedText = MarkedText(line: DiffLine, marked: bool)

  /** A hunk as read: its positions and counts, and its lines with their markers. */
  datatype ReadHunk = ReadHunk(oldStart: nat, oldCount: nat, newStart: nat, newCount: nat, lines: seq<MarkedText>)

  function Expect(s: string, prefix: string): Option<string> {
    if StartsWith(s, prefix) then Some(s[|prefix|..]) else None
  }

  /** Reads a range; an omitted count is one, and an empty range counts from the line after. */
  function ReadRange(s: string): Option<(nat, nat, string)> {
    match ReadNat(s)
    case None => None
    case Some((shown, rest)) =>
      if rest != "" && rest[0] == ',' then
        match ReadNat(rest[1..])
        case None => None
        case Some((count, rest2)) => Some((if count == 0 then shown + 1 else shown, count, rest2))
      else Some((shown, 1, rest))
  }

  function ReadHeader(s: string): Option<(nat, nat, nat, nat)> {
    match Expect(s, "@@ -")
    case None => None
    case Some(s1) =>
      match ReadRange(s1)
      case None => None
      case Some((oldStart, oldCount, s2)) =>
        match Expect(s2, " +")
        case None => None
        case Some(s3) =>
          match ReadRange(s3)
          case None => None
          case Some((newStart, newCount, s4)) =>
            if s4 == " @@" then Some((oldStart, oldCount, newStart, newCount)) else None
  }

  function KindOf(prefix: char): Option<Kind> {
    if prefix == ' ' then Some(Context)
    else if prefix == '+' then Some(Addition)
    else if prefix == '-' then Some(Deletion)
    else None
  }

  predicate IsMarker(s: string) {
    s != "" && s[0] == '\\'
  }

  /** Reads hunk lines until both counts are used up; a marker belongs to the line before it. */
  function ReadLines(s: seq<string>, oldCount: nat, newCount: nat): Option<(seq<MarkedText>, seq<string>)>
    decreases |s|
  {
    if oldCount == 0 && newCount == 0 then Some(([], s))
    else if s == [] || s[0] == "" then None
    else
      match KindOf(s[0][0])
      case None => None
      case Some(kind) =>
        if (kind != Addition && oldCount == 0) || (kind != Deletion && newCount == 0) then None
        else
          var marked := |s| > 1 && IsMarker(s[1]);
          match ReadLines(if marked then s[2..] else s[1..],
                          if kind == Addition then oldCount else oldCount - 1,
                          if kind == Deletion then newCount else newCount - 1)
          case None => None
          case Some((lines, rest)) =>
            Some(([MarkedText(DiffLine(kind, s[0][1..]), marked)] + lines, rest))
  }

  lemma {:induction false} ReadLinesShrinks(s: seq<string>, oldCount: nat, newCount: nat)
    requires ReadLines(s, oldCount, newCount).Some?
    ensures |ReadLines(s, oldCount, newCount).value.1| <= |s|
    decreases |s|
  {
    if oldCount != 0 || newCount != 0 {
      var kind := KindOf(s[0][0]).value;
      var marked := |s| > 1 && IsMarker(s[1]);
      ReadLinesShrinks(if marked then s[2..] else s[1..],
                       if kind == Addition then oldCount else oldCount - 1,
                       if kind == Deletion then newCount else newCount - 1);
    }
  }

  function ReadHunks(s: seq<string>): Option<seq<ReadHunk>>
    decreases |s|
  {
    if s == [] then Some([])
    else
      match ReadHeader(s[0])
      case None => None
      case Some((oldStart, oldCount, newStart, newCount)) =>
        match ReadLines(s[1..], oldCount, newCount)
        case None => None
        case Some((lines, rest)) =>
          ReadLinesShrinks(s[1..], oldCount, newCount);
          match ReadHunks(rest)
          case None => None
          case Some(hunks) => Some([ReadHunk(oldStart, oldCount, newStart, newCount, lines)] + hunks)
  }

  /** Reads a whole diff: nothing at all, or two file headers followed by hunks. */
  function ReadDiff(unified: string): Option<seq<ReadHunk>> {
    var lines := TextLines(unified);
    if lines == [] then Some([])
    else if |lines| >= 2 && StartsWith(lines[0], "--- ") && StartsWith(lines[1], "+++ ") then ReadHunks(lines[2..])
    else None
  }

  function PlainLines(lines: seq<MarkedText>): Script {
    seq(|lines|, i requires 0 <= i < |lines| => lines[i].line)
  }

  function ChunkLines(lines: seq<MarkedText>): Script {
    seq(|lines|, i requires 0 <= i < |lines| =>
      DiffLine(lines[i].line.kind, lines[i].line.text + if lines[i].marked then "" else "\n"))
  }

  /** The hunks over lines, with the markers ignored. */
  function PlainHunks(hunks: seq<ReadHunk>): seq<Hunk> {
    seq(|hunks|, k requires 0 <= k < |hunks| => var h := hunks[k];
      Hunk(h.oldStart, h.oldCount, h.newStart, h.newCount, PlainLines(h.lines)))
  }

  /** The hunks over lines with terminators: a marked line has none. */
  function ChunkHunks(hunks: seq<ReadHunk>): seq<Hunk> {
    seq(|hunks|, k requires 0 <= k < |hunks| => var h := hunks[k];
      Hunk(h.oldStart, h.oldCount, h.newStart, h.newCount, ChunkLines(h.lines)))
  }

  /** Applies a diff to a list of lines. */
  function ApplyToLines(unified: string, lines: seq<string>): Option<seq<string>> {
    match ReadDiff(unified)
    case None => None
    case Some(hunks) => Apply(PlainHunks(hunks), lines)
  }

  /** Applies a diff in reverse to a list of lines. */
  function UnapplyToLines(unified: string, lines: seq<string>): Option<seq<string>> {
    match ReadDiff(unified)
    case None => None
    case Some(hunks) => Apply(FlipHunks(PlainHunks(hunks)), lines)
  }

  /** Applies a diff to a text, terminators and markers included. */
  function ApplyToText(unified: string, text: string): Option<string> {
    match ReadDiff(unified)
    case None => None
    case Some(hunks) =>
      match Apply(ChunkHunks(hunks), Chunks(text))
      case None => None
      case Some(chunks) => Some(Concat(chunks))
  }

  // ----- Reading what was printed -----

  lemma ReadShowRange(start: nat, count: nat, rest: string)
    requires start >= 1 && (rest == "" || (!IsDigit(rest[0]) && rest[0] != ','))
    ensures ReadRange(ShowRange(start, count) + rest) == Some((start, count, rest))
  {
    hide Show, ReadNat;
    var shown: nat := if count == 0 then start - 1 else start;
    if count == 1 {
      assert Show(shown) + "" == Show(shown);
      assert ShowRange(start, count) + rest == Show(shown) + rest;
      ReadShow(shown, rest);
    } else {
      var tail := Show(count) + rest;
      assert ShowRange(start, count) + rest == Show(shown) + ("," + tail);
      ReadShow(shown, "," + tail);
      assert ("," + tail)[1..] == tail;
      ReadShow(count, rest);
    }
  }

  lemma ExpectPrefix(prefix: string, rest: string)
    ensures Expect(prefix + rest, prefix) == Some(rest)
  {
    assert (prefix + rest)[..|prefix|] == prefix;
    assert (prefix + rest)[|prefix|..] == rest;
  }

  lemma ReadShowHeader(h: Hunk)
    requires h.oldStart >= 1 && h.newStart >= 1
    ensures ReadHeader(ShowHeader(h)) == Some((h.oldStart, h.oldCount, h.newStart, h.newCount))
  {
    var oldRange, newRange := ShowRange(h.oldStart, h.oldCount), ShowRange(h.newStart, h.newCount);
    var s4 := " @@";
    var s3 := newRange + s4;
    var s2 := " +" + s3;
    var s1 := oldRange + s2;
    assert ShowHeader(h) == "@@ -" + s1;
    ExpectPrefix("@@ -", s1);
    ReadShowRange(h.oldStart, h.oldCount, s2);
    ExpectPrefix(" +", s3);
    ReadShowRange(h.newStart, h.newCount, s4);
  }

  /** The lines of a printed hunk with their markers. */
  function WithMarkers(lines: Script, oldNumber: nat, newNumber: nat, ends: Ends): (r: seq<MarkedText>)
    ensures |r| == |lines|
  {
    if lines == [] then []
    else
      [MarkedText(lines[0], MarkerFollows(lines[0], oldNumber, newNumber, ends))] +
      WithMarkers(lines[1..], NextOld(lines[0], oldNumber), NextNew(lines[0], newNumber), ends)
  }

  /** What follows a printed line never looks like a marker by accident. */
  lemma ShownLinesStart(lines: Script, oldNumber: nat, newNumber: nat, ends: Ends, rest: seq<string>)
    requires rest == [] || !IsMarker(rest[0])
    ensures var s := ShowLines(lines, oldNumber, newNumber, ends) + rest; s == [] || !IsMarker(s[0])
  {
    if lines != [] {
      assert (ShowLines(lines, oldNumber, newNumber, ends) + rest)[0] == [Prefix(lines[0].kind)] + lines[0].text;
    }
  }

  lemma Regroup<T>(a: seq<T>, b: seq<T>, c: seq<T>)
    ensures a + b + c == a + (b + c)
  {
  }

  lemma {:induction false} ReadShownLines(lines: Script, oldNumber: nat, newNumber: nat, ends: Ends, rest: seq<string>)
    requires rest == [] || !IsMarker(rest[0])
    ensures ReadLines(ShowLines(lines, oldNumber, newNumber, ends) + rest, |OldSide(lines)|, |NewSide(lines)|)
         == Some((WithMarkers(lines, oldNumber, newNumber, ends), rest))
    decreases |lines|
  {
    hide MarkerFollows, ReadLines, WithMarkers, ShowLine;
    if lines == [] {
      ReadNoLines(oldNumber, newNumber, ends, rest);
      assert ShowLines(lines, oldNumber, newNumber, ends) + rest == rest;
    } else {
      var line := lines[0];
      var o, n := NextOld(line, oldNumber), NextNew(line, newNumber);
      var shown, tail := ShowLine(line, oldNumber, newNumber, ends), ShowLines(lines[1..], o, n, ends);
      ReadShownLines(lines[1..], o, n, ends, rest);
      ShownLinesStart(lines[1..], o, n, ends, rest);
      Regroup(shown, tail, rest);
      ShownLineIs(line, oldNumber, newNumber, ends);
      WithMarkersCons(lines, oldNumber, newNumber, ends);
      ReadOneLine(line, MarkerFollows(line, oldNumber, newNumber, ends), tail + rest,
                  |OldSide(lines)|, |NewSide(lines)|, WithMarkers(lines[1..], o, n, ends), rest);
    }
  }

  lemma ReadNoLines(oldNumber: nat, newNumber: nat, ends: Ends, rest: seq<string>)
    ensures ReadLines(rest, 0, 0) == Some((WithMarkers([], oldNumber, newNumber, ends), rest))
  {
  }

  lemma ShownLineIs(line: DiffLine, oldNumber: nat, newNumber: nat, ends: Ends)
    ensures ShowLine(line, oldNumber, newNumber, ends)
         == [[Prefix(line.kind)] + line.text] +
            (if MarkerFollows(line, oldNumber, newNumber, ends) then [NO_NEWLINE] else [])
  {
  }

  lemma WithMarkersCons(lines: Script, oldNumber: nat, newNumber: nat, ends: Ends)
    requires lines != []
    ensures WithMarkers(lines, oldNumber, newNumber, ends)
         == [MarkedText(lines[0], MarkerFollows(lines[0], oldNumber, newNumber, ends))] +
            WithMarkers(lines[1..], NextOld(lines[0], oldNumber), NextNew(lines[0], newNumber), ends)
  {
  }

  /** One printed line, with or without its marker, is read as that line. */
  lemma ReadOneLine(line: DiffLine, marked: bool, tail: seq<string>, oldCount: nat, newCount: nat,
                    lines: seq<MarkedText>, rest: seq<string>)
    requires line.kind != Addition ==> oldCount > 0
    requires line.kind != Deletion ==> newCount > 0
    requires tail == [] || !IsMarker(tail[0])
    requires ReadLines(tail, if line.kind == Addition then oldCount else oldCount - 1,
                       if line.kind == Deletion then newCount else newCount - 1) == Some((lines, rest))
    ensures ReadLines([[Prefix(line.kind)] + line.text] + (if marked then [NO_NEWLINE] else []) + tail,
                      oldCount, newCount)
         == Some(([MarkedText(line, marked)] + lines, rest))
  {
    var first := [Prefix(line.kind)] + line.text;
    assert first[1..] == line.text;
    var s := [first] + (if marked then [NO_NEWLINE] else []) + tail;
    assert s[0] == first && KindOf(first[0]) == Some(line.kind);
    if marked {
      assert s[1] == NO_NEWLINE && s[2..] == tail;
    } else {
      assert s[1..] == tail;
    }
  }

  function ReadOf(h: Hunk, ends: Ends): ReadHunk {
    ReadHunk(h.oldStart, h.oldCount, h.newStart, h.newCount, WithMarkers(h.lines, h.oldStart, h.newStart, ends))
  }

  predicate Counted(hunks: seq<Hunk>) {
    forall k :: 0 <= k < |hunks| ==>
      hunks[k].oldCount == |OldSide(hunks[k].lines)| && hunks[k].newCount == |NewSide(hunks[k].lines)|
  }

  function ReadOfAll(hunks: seq<Hunk>, ends: Ends): (r: seq<ReadHunk>)
    ensures |r| == |hunks| && forall k :: 0 <= k < |r| ==> r[k] == ReadOf(hunks[k], ends)
  {
    seq(|hunks|, k requires 0 <= k < |hunks| => ReadOf(hunks[k], ends))
  }

  lemma ReadOfAllCons(hunks: seq<Hunk>, ends: Ends)
    requires hunks != []
    ensures ReadOfAll(hunks, ends) == [ReadOf(hunks[0], ends)] + ReadOfAll(hunks[1..], ends)
  {
  }

  lemma ShownHunksStart(hunks: seq<Hunk>, ends: Ends)
    requires Numbered(hunks)
    ensures var s := ShowHunks(hunks, ends); s == [] || !IsMarker(s[0])
  {
    if hunks != [] {
      assert ShowHunks(hunks, ends)[0] == ShowHeader(hunks[0]);
      assert ShowHeader(hunks[0])[0] == '@';
    }
  }

  /** Reading printed hunks gives every position, count, line and marker back. */
  lemma {:induction false} ReadShownHunks(hunks: seq<Hunk>, ends: Ends)
    requires Numbered(hunks) && Counted(hunks)
    ensures ReadHunks(ShowHunks(hunks, ends)) == Some(ReadOfAll(hunks, ends))
    decreases |hunks|
  {
    if hunks == [] {
      assert ReadOfAll(hunks, ends) == [];
    } else {
      var h, tail := hunks[0], hunks[1..];
      ReadShownHunks(tail, ends);
      var rest := ShowHunks(tail, ends);
      ShownHunksStart(tail, ends);
      ReadShowHeader(h);
      ReadShownLines(h.lines, h.oldStart, h.newStart, ends, rest);
      ReadOneHunk(ShowHeader(h), ReadOf(h, ends), ShowLines(h.lines, h.oldStart, h.newStart, ends) + rest, rest,
                  ReadOfAll(tail, ends));
      Regroup([ShowHeader(h)], ShowLines(h.lines, h.oldStart, h.newStart, ends), rest);
      ReadOfAllCons(hunks, ends);
    }
  }

  /** A header line and the lines it announces are read as one hunk. */
  lemma ReadOneHunk(header: string, h: ReadHunk, body: seq<string>, rest: seq<string>, hunks: seq<ReadHunk>)
    requires ReadHeader(header) == Some((h.oldStart, h.oldCount, h.newStart, h.newCount))
    requires ReadLines(body, h.oldCount, h.newCount) == Some((h.lines, rest))
    requires ReadHunks(rest) == Some(hunks)
    ensures ReadHunks([header] + body) == Some([h] + hunks)
  {
    assert ([header] + body)[1..] == body;
  }
}
