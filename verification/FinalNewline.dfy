/**
 The final newline in a patch. A printed line stands for its text and its terminator; the marker
 "No newline at end of file" takes the terminator away. Here is exactly when that says the right
 thing about both texts.
 */
module FinalNewline {
  import opened Text
  import opened EditScript
  import opened Hunks
  import opened Patch

  /** Does the marker follow line `i` of a script, given which texts lack their final newline? */
  predicate Marked(edit: Script, i: nat, oldOpen: bool, newOpen: bool)
    requires i < |edit|
  {
    || (edit[i].kind != Addition && oldOpen && OldSide(edit[i + 1..]) == [])
    || (edit[i].kind != Deletion && newOpen && NewSide(edit[i + 1..]) == [])
  }

  /** What a line of the printed script stands for: its text, and a newline unless it is marked. */
  function MarkedLine(edit: Script, i: nat, oldOpen: bool, newOpen: bool): DiffLine
    requires i < |edit|
  {
    DiffLine(edit[i].kind, edit[i].text + if Marked(edit, i, oldOpen, newOpen) then "" else "\n")
  }

  /** The script over lines with terminators that the printed script stands for. */
  function MarkedScript(edit: Script, oldOpen: bool, newOpen: bool): (s: Script)
    ensures |s| == |edit|
    ensures forall i :: 0 <= i < |edit| ==> s[i] == MarkedLine(edit, i, oldOpen, newOpen)
  {
    seq(|edit|, i requires 0 <= i < |edit| => MarkedLine(edit, i, oldOpen, newOpen))
  }

  /** The last line of the old text is kept as a context line. */
  predicate LastOldKept(edit: Script) {
    edit != [] && if OldSide(edit[1..]) != [] then LastOldKept(edit[1..]) else edit[0].kind == Context
  }

  /** The last line of the new text is kept as a context line. */
  predicate LastNewKept(edit: Script) {
    edit != [] && if NewSide(edit[1..]) != [] then LastNewKept(edit[1..]) else edit[0].kind == Context
  }

  /**
   A text that lacks its final newline must not end in a context line, unless both texts lack it
   and end in that same line.
   */
  predicate FinalLinesAgree(edit: Script, oldOpen: bool, newOpen: bool) {
    (oldOpen && LastOldKept(edit)) == (newOpen && LastNewKept(edit))
  }

  lemma MarkedTail(edit: Script, oldOpen: bool, newOpen: bool)
    requires edit != []
    ensures MarkedScript(edit, oldOpen, newOpen)
         == [MarkedLine(edit, 0, oldOpen, newOpen)] + MarkedScript(edit[1..], oldOpen, newOpen)
  {
    forall i | 1 <= i < |edit|
      ensures MarkedLine(edit, i, oldOpen, newOpen) == MarkedLine(edit[1..], i - 1, oldOpen, newOpen)
    {
      assert edit[1..][i..] == edit[i + 1..];
    }
  }

  lemma {:induction false} AdditionsOnly(edit: Script)
    requires OldSide(edit) == []
    ensures LastNewKept(edit) == false && !LastOldKept(edit)
  {
    if edit != [] {
      AdditionsOnly(edit[1..]);
    }
  }

  lemma {:induction false} DeletionsOnly(edit: Script)
    requires NewSide(edit) == []
    ensures !LastOldKept(edit) && !LastNewKept(edit)
  {
    if edit != [] {
      DeletionsOnly(edit[1..]);
    }
  }

  /** If the final lines agree they also agree without the first line. */
  lemma AgreeTail(edit: Script, oldOpen: bool, newOpen: bool)
    requires edit != [] && FinalLinesAgree(edit, oldOpen, newOpen)
    ensures FinalLinesAgree(edit[1..], oldOpen, newOpen)
  {
    var tail := edit[1..];
    if OldSide(tail) == [] {
      AdditionsOnly(tail);
    } else if NewSide(tail) == [] {
      DeletionsOnly(tail);
    }
  }

  /** When the final lines agree, the printed script reads and writes exactly the two texts. */
  lemma {:induction false} AgreeingSides(edit: Script, oldOpen: bool, newOpen: bool)
    requires FinalLinesAgree(edit, oldOpen, newOpen)
    ensures OldSide(MarkedScript(edit, oldOpen, newOpen)) == Terminated(OldSide(edit), oldOpen)
    ensures NewSide(MarkedScript(edit, oldOpen, newOpen)) == Terminated(NewSide(edit), newOpen)
  {
    hide Marked, FinalLinesAgree, Terminated;
    if edit == [] {
      NothingMarked(oldOpen, newOpen);
    } else {
      var line, tail := edit[0], edit[1..];
      AgreeTail(edit, oldOpen, newOpen);
      AgreeingSides(tail, oldOpen, newOpen);
      MarkedTail(edit, oldOpen, newOpen);
      AgreeingHead(edit, oldOpen, newOpen);
      var m, rest := MarkedScript(edit, oldOpen, newOpen), MarkedScript(tail, oldOpen, newOpen);
      assert m[0] == MarkedLine(edit, 0, oldOpen, newOpen) && m[1..] == rest;
      TerminatedPart(line.text, OldSide(tail), oldOpen);
      TerminatedPart(line.text, NewSide(tail), newOpen);
      assert [] + OldSide(tail) == OldSide(tail) && [] + NewSide(tail) == NewSide(tail);
      assert [] + OldSide(rest) == OldSide(rest) && [] + NewSide(rest) == NewSide(rest);
    }
  }

  lemma NothingMarked(oldOpen: bool, newOpen: bool)
    ensures MarkedScript([], oldOpen, newOpen) == []
    ensures Terminated([], oldOpen) == [] && Terminated([], newOpen) == []
  {
  }

  lemma TerminatedPart(line: string, tail: seq<string>, open: bool)
    ensures Terminated([line] + tail, open) == [line + if open && tail == [] then "" else "\n"] + Terminated(tail, open)
  {
    TerminatedTail([line] + tail, open);
    assert ([line] + tail)[1..] == tail;
  }

  /** When the final lines agree, the first line is marked exactly as each side that has it needs. */
  lemma AgreeingHead(edit: Script, oldOpen: bool, newOpen: bool)
    requires edit != [] && FinalLinesAgree(edit, oldOpen, newOpen)
    ensures edit[0].kind != Addition ==>
      (Marked(edit, 0, oldOpen, newOpen) <==> oldOpen && OldSide(edit[1..]) == [])
    ensures edit[0].kind != Deletion ==>
      (Marked(edit, 0, oldOpen, newOpen) <==> newOpen && NewSide(edit[1..]) == [])
  {
    var tail := edit[1..];
    if edit[0].kind == Context {
      if OldSide(tail) == [] { AdditionsOnly(tail); }
      if NewSide(tail) == [] { DeletionsOnly(tail); }
    }
  }

  function Bit(b: bool): int {
    if b then 1 else 0
  }

  /** Length of the old text plus the growth of the printed script: off by one if the ends disagree. */
  lemma {:induction false} MarkedGrowth(edit: Script, oldOpen: bool, newOpen: bool)
    ensures var m := MarkedScript(edit, oldOpen, newOpen);
      Size(Terminated(OldSide(edit), oldOpen)) + Size(NewSide(m)) - Size(OldSide(m))
      == Size(Terminated(NewSide(edit), newOpen))
         + Bit(newOpen && LastNewKept(edit)) - Bit(oldOpen && LastOldKept(edit))
  {
    hide Marked, Terminated, LastOldKept, LastNewKept;
    if edit == [] {
      NothingMarked(oldOpen, newOpen);
      NothingKept();
    } else {
      hide Size;
      var tail := edit[1..];
      MarkedGrowth(tail, oldOpen, newOpen);
      MarkedTail(edit, oldOpen, newOpen);
      HeadMarked(edit, oldOpen, newOpen);
      HeadKept(edit);
      var m := MarkedScript(edit, oldOpen, newOpen);
      assert m[0] == MarkedLine(edit, 0, oldOpen, newOpen) && m[1..] == MarkedScript(tail, oldOpen, newOpen);
      SideGrowth(edit[0], OldSide(tail), oldOpen, OldSide(edit), edit[0].kind != Addition);
      SideGrowth(edit[0], NewSide(tail), newOpen, NewSide(edit), edit[0].kind != Deletion);
      SizeCons(m[0].text, OldSide(m[1..]));
      SizeCons(m[0].text, NewSide(m[1..]));
    }
  }

  lemma NothingKept()
    ensures !LastOldKept([]) && !LastNewKept([])
  {
  }

  lemma HeadMarked(edit: Script, oldOpen: bool, newOpen: bool)
    requires edit != []
    ensures |MarkedLine(edit, 0, oldOpen, newOpen).text| == |edit[0].text| + 1 - Bit(Marked(edit, 0, oldOpen, newOpen))
    ensures edit[0].kind == Deletion ==> (Marked(edit, 0, oldOpen, newOpen) <==> oldOpen && OldSide(edit[1..]) == [])
    ensures edit[0].kind == Addition ==> (Marked(edit, 0, oldOpen, newOpen) <==> newOpen && NewSide(edit[1..]) == [])
  {
  }

  /** The first line is the last of a side exactly when nothing of that side follows. */
  lemma HeadKept(edit: Script)
    requires edit != []
    ensures LastOldKept(edit) <==> LastOldKept(edit[1..]) || (edit[0].kind == Context && OldSide(edit[1..]) == [])
    ensures LastNewKept(edit) <==> LastNewKept(edit[1..]) || (edit[0].kind == Context && NewSide(edit[1..]) == [])
    ensures OldSide(edit[1..]) == [] ==> !LastOldKept(edit[1..])
    ensures NewSide(edit[1..]) == [] ==> !LastNewKept(edit[1..])
  {
    var tail := edit[1..];
    if OldSide(tail) == [] { AdditionsOnly(tail); }
    if NewSide(tail) == [] { DeletionsOnly(tail); }
  }

  lemma SizeCons(line: string, rest: seq<string>)
    ensures Size([line] + rest) == |line| + Size(rest) && Size([] + rest) == Size(rest)
  {
    SizeAppend([line], rest);
    assert Concat([line]) == line;
    assert [] + rest == rest;
  }

  /** How one more line at the front of a side changes the length of that side's text. */
  lemma SideGrowth(line: DiffLine, tail: seq<string>, open: bool, side: seq<string>, present: bool)
    requires side == (if present then [line.text] else []) + tail
    ensures Size(Terminated(side, open)) == Size(Terminated(tail, open)) +
      if present then |line.text| + 1 - Bit(open && tail == []) else 0
  {
    if present {
      TerminatedTail(side, open);
      assert side[1..] == tail;
      SizeCons(line.text + if open && |side| == 1 then "" else "\n", Terminated(tail, open));
    } else {
      assert side == tail;
    }
  }

  /**
   Applying the printed hunks to the old text, terminators included, gives the new text exactly when
   the final lines agree.
   */
  lemma AppliesExactlyWhen(oldText: string, newText: string, edit: Script, spans: seq<Span>, hunks: seq<Hunk>)
    requires Transforms(edit, TextLines(oldText), TextLines(newText)) && Covers(edit, spans, 0)
    requires HunksOf(MarkedScript(edit, LacksFinalNewline(oldText), LacksFinalNewline(newText)), spans, hunks)
    ensures (Apply(hunks, Chunks(oldText)).Some? && Concat(Apply(hunks, Chunks(oldText)).value) == newText)
       <==> FinalLinesAgree(edit, LacksFinalNewline(oldText), LacksFinalNewline(newText))
  {
    var oldOpen, newOpen := LacksFinalNewline(oldText), LacksFinalNewline(newText);
    var m := MarkedScript(edit, oldOpen, newOpen);
    assert forall i :: 0 <= i < |edit| ==> IsChange(edit, i) == IsChange(m, i);
    CoversSameKinds(edit, m, spans, 0);
    ConcatChunks(oldText);
    ConcatChunks(newText);
    if FinalLinesAgree(edit, oldOpen, newOpen) {
      AgreeingSides(edit, oldOpen, newOpen);
      ApplyYieldsNew(m, spans, hunks);
    } else if Apply(hunks, Chunks(oldText)).Some? {
      ApplyConserves(hunks, Chunks(oldText), 0, 0);
      assert Chunks(oldText)[0..] == Chunks(oldText) && m[0..] == m;
      GrowthOfCovering(m, spans, hunks, 0);
      MarkedGrowth(edit, oldOpen, newOpen);
    }
  }
}
