/**
 Whether the one "No newline" marker of a printed diff is right for both texts, decided on the texts
 alone: which of the two last lines the backtracked script keeps as context.
 */
module LastLines {
  import opened Text
  import opened EditScript
  import opened ScriptOrder
  import opened LineDiff
  import opened FinalNewline

  /** The last place of a line in a list, or -1. */
  function LastIndex(line: string, y: seq<string>): (j: int)
    ensures -1 <= j < |y|
    ensures j >= 0 <==> line in y
    ensures j >= 0 ==> y[j] == line
  {
    if y == [] then -1
    else if Last(y) == line then |y| - 1
    else LastIndex(line, Init(y))
  }

  /** A longest common subsequence can match the last old line with its last occurrence among the new lines. */
  predicate KeepsLastOld(x: seq<string>, y: seq<string>) {
    x != [] &&
    var j := LastIndex(Last(x), y);
    j >= 0 && Lcs(x, y) == Lcs(Init(x), y[..j]) + 1
  }

  /** The last lines are equal, or every longest common subsequence needs the last new line. */
  predicate KeepsLastNew(x: seq<string>, y: seq<string>) {
    x != [] && y != [] && (Last(x) == Last(y) || Lcs(x, y) > Lcs(x, Init(y)))
  }

  /** What a caller can check of two texts: each text without a final newline keeps its last line, or neither does. */
  predicate TextsAgree(oldText: string, newText: string) {
    var x, y := TextLines(oldText), TextLines(newText);
    || oldText == newText
    || !WithinMatrixLimit(oldText, newText)
    || (LacksFinalNewline(oldText) && KeepsLastOld(x, y)) == (LacksFinalNewline(newText) && KeepsLastNew(x, y))
  }

  // ----- The last lines of scripts -----

  /** One more line at the end of a script. */
  lemma {:induction false} KeptSnoc(s: Script, line: DiffLine)
    ensures LastOldKept(s + [line]) == if line.kind == Addition then LastOldKept(s) else line.kind == Context
    ensures LastNewKept(s + [line]) == if line.kind == Deletion then LastNewKept(s) else line.kind == Context
  {
    var t := s + [line];
    if s == [] {
      assert t == [line] && t[1..] == [];
    } else {
      assert t[0] == s[0] && t[1..] == s[1..] + [line];
      KeptSnoc(s[1..], line);
      SidesAppend(s[1..], [line]);
      assert OldSide([line]) == OldPart(line) && NewSide([line]) == NewPart(line);
      if line.kind == Addition && OldSide(s[1..]) == [] { AdditionsOnly(t[1..]); }
      if line.kind == Deletion && NewSide(s[1..]) == [] { DeletionsOnly(t[1..]); }
    }
  }

  lemma {:induction false} LcsOfPrefix(x: seq<string>, y: seq<string>, k: nat)
    requires k <= |y|
    ensures Lcs(x, y[..k]) <= Lcs(x, y)
    decreases |y|
  {
    if k == |y| {
      assert y[..k] == y;
    } else {
      LcsStep(x, y);
      LcsOfPrefix(x, Init(y), k);
      assert Init(y)[..k] == y[..k];
    }
  }

  /** Up to and with the last occurrence of the last old line, that line is matched. */
  lemma LcsAtLast(x: seq<string>, y: seq<string>)
    requires x != [] && Last(x) in y
    ensures var j := LastIndex(Last(x), y); Lcs(x, y[..j + 1]) == Lcs(Init(x), y[..j]) + 1
  {
    var j := LastIndex(Last(x), y);
    assert Init(y[..j + 1]) == y[..j] && Last(y[..j + 1]) == y[j];
  }

  /** Which last lines the backtracked script keeps. */
  lemma {:induction false} BacktrackKeepsLast(x: seq<string>, y: seq<string>)
    ensures LastOldKept(Backtrack(x, y)) <==> KeepsLastOld(x, y)
    ensures LastNewKept(Backtrack(x, y)) <==> KeepsLastNew(x, y)
    decreases |x| + |y|
  {
    hide LastOldKept, LastNewKept, KeepsLastOld, KeepsLastNew;
    if x != [] && y != [] && Last(x) == Last(y) {
      KeptSnoc(Backtrack(Init(x), Init(y)), DiffLine(Context, Last(x)));
      MatchKeepsBoth(x, y);
    } else if y != [] && (x == [] || Lcs(x, Init(y)) >= Lcs(Init(x), y)) {
      KeptSnoc(Backtrack(x, Init(y)), DiffLine(Addition, Last(y)));
      BacktrackKeepsLast(x, Init(y));
      AdditionKeeps(x, y);
    } else if x != [] {
      KeptSnoc(Backtrack(Init(x), y), DiffLine(Deletion, Last(x)));
      BacktrackKeepsLast(Init(x), y);
      DeletionKeeps(x, y);
    } else {
      NothingKept();
    }
  }

  lemma NothingKept()
    ensures !LastOldKept([]) && !LastNewKept([])
    ensures !KeepsLastOld([], []) && !KeepsLastNew([], [])
  {
  }

  lemma MatchKeepsBoth(x: seq<string>, y: seq<string>)
    requires x != [] && y != [] && Last(x) == Last(y)
    ensures KeepsLastOld(x, y) && KeepsLastNew(x, y)
  {
  }

  lemma AdditionKeeps(x: seq<string>, y: seq<string>)
    requires y != [] && (x == [] || (Last(x) != Last(y) && Lcs(x, Init(y)) >= Lcs(Init(x), y)))
    ensures KeepsLastOld(x, y) <==> KeepsLastOld(x, Init(y))
    ensures !KeepsLastNew(x, y)
  {
    if x != [] {
      var j := LastIndex(Last(x), y);
      assert j >= 0 ==> Init(y)[..j] == y[..j];
    }
  }

  lemma DeletionKeeps(x: seq<string>, y: seq<string>)
    requires x != [] && (y == [] || (Last(x) != Last(y) && Lcs(x, Init(y)) < Lcs(Init(x), y)))
    ensures !KeepsLastOld(x, y)
    ensures KeepsLastNew(x, y) <==> KeepsLastNew(Init(x), y)
  {
    if y != [] {
      LcsStep(x, Init(y));
      if Last(x) in y {
        var j := LastIndex(Last(x), y);
        LcsAtLast(x, y);
        assert j + 1 <= |y| - 1 && Init(y)[..j + 1] == y[..j + 1];
        LcsOfPrefix(x, Init(y), j + 1);
      }
    }
  }

  // ----- The exact condition -----

  lemma {:induction false} AllContextKept(x: seq<string>)
    ensures LastOldKept(AllOf(x, Context)) <==> x != []
    ensures LastNewKept(AllOf(x, Context)) <==> x != []
  {
    if x != [] {
      var s := AllOf(x, Context);
      assert s == AllOf(Init(x), Context) + [DiffLine(Context, Last(x))];
      KeptSnoc(AllOf(Init(x), Context), DiffLine(Context, Last(x)));
    }
  }

  lemma {:induction false} ReplacedKeepsNothing(x: seq<string>, y: seq<string>)
    ensures !LastOldKept(AllOf(x, Deletion) + AllOf(y, Addition))
    ensures !LastNewKept(AllOf(x, Deletion) + AllOf(y, Addition))
    decreases |y|
  {
    var s := AllOf(x, Deletion) + AllOf(y, Addition);
    if y != [] {
      ReplacedKeepsNothing(x, Init(y));
      assert s == (AllOf(x, Deletion) + AllOf(Init(y), Addition)) + [DiffLine(Addition, Last(y))];
      KeptSnoc(AllOf(x, Deletion) + AllOf(Init(y), Addition), DiffLine(Addition, Last(y)));
    } else if x != [] {
      assert s == AllOf(Init(x), Deletion) + [DiffLine(Deletion, Last(x))];
      KeptSnoc(AllOf(Init(x), Deletion), DiffLine(Deletion, Last(x)));
      OnlyDeletions(s);
    }
  }

  lemma OnlyDeletions(s: Script)
    requires forall i :: 0 <= i < |s| ==> s[i].kind == Deletion
    ensures !LastNewKept(s)
  {
    SidesOfDeletions(s);
    DeletionsOnly(s);
  }

  lemma {:induction false} SidesOfDeletions(s: Script)
    requires forall i :: 0 <= i < |s| ==> s[i].kind == Deletion
    ensures NewSide(s) == []
  {
    if s != [] { SidesOfDeletions(s[1..]); }
  }

  /** The final lines of the computed script agree exactly when the texts do. */
  lemma FinalLinesAgreeExactlyWhen(oldText: string, newText: string)
    ensures FinalLinesAgree(EditLines(oldText, newText), LacksFinalNewline(oldText), LacksFinalNewline(newText))
       <==> TextsAgree(oldText, newText)
  {
    hide LastOldKept, LastNewKept, KeepsLastOld, KeepsLastNew;
    var x, y := TextLines(oldText), TextLines(newText);
    if oldText == newText {
      AllContextKept(x);
    } else if !WithinMatrixLimit(oldText, newText) {
      ReplacedKeepsNothing(x, y);
      EmptyWithinLimit(oldText, newText);
    } else if x == [] || y == [] {
      BacktrackOfEmpty(x, y);
      BacktrackKeepsLast(x, y);
    } else {
      BacktrackKeepsLast(x, y);
    }
  }

  lemma EmptyWithinLimit(oldText: string, newText: string)
    ensures TextLines(oldText) == [] || TextLines(newText) == [] ==> WithinMatrixLimit(oldText, newText)
  {
  }

  /** Equal last lines agree exactly when both texts end alike. */
  lemma EqualLastLinesAgree(oldText: string, newText: string)
    requires WithinMatrixLimit(oldText, newText) && TextLines(oldText) != [] && TextLines(newText) != []
    requires Last(TextLines(oldText)) == Last(TextLines(newText))
    ensures TextsAgree(oldText, newText) <==> (LacksFinalNewline(oldText) <==> LacksFinalNewline(newText))
  {
    hide KeepsLastOld, KeepsLastNew;
    MatchKeepsBoth(TextLines(oldText), TextLines(newText));
  }

  /** Above the cell limit nothing is shared, and the markers are always right. */
  lemma ReplacedTextsAgree(oldText: string, newText: string)
    requires !WithinMatrixLimit(oldText, newText)
    ensures TextsAgree(oldText, newText)
  {
  }

  /** Texts that both end in a newline, or are empty, always agree. */
  lemma TerminatedTextsAgree(oldText: string, newText: string)
    requires !LacksFinalNewline(oldText) && !LacksFinalNewline(newText)
    ensures TextsAgree(oldText, newText)
  {
  }

  /** So do a text and the empty text, whichever way the other one ends. */
  lemma EmptyTextAgrees(oldText: string, newText: string)
    requires oldText == "" || newText == ""
    ensures TextsAgree(oldText, newText)
  {
  }

  /** A smallest pair that lacks both newlines and does not agree. */
  lemma AppendedLineDisagrees()
    ensures !TextsAgree("a", "a\nb")
  {
    SplitJoin(["a"], '\n');
    SplitJoin(["a", "b"], '\n');
    assert Join(["a", "b"], "\n") == "a" + "\n" + Join(["b"], "\n") == "a\nb";
    assert TextLines("a") == ["a"];
    assert TextLines("a\nb") == ["a", "b"];
    var x, y := ["a"], ["a", "b"];
    assert Init(y) == ["a"] && Init(x) == [];
    assert LastIndex("a", y) == LastIndex("a", ["a"]) == 0;
    assert Lcs(x, Init(y)) == 1 && Lcs(x, y) == 1;
    assert KeepsLastOld(x, y) && !KeepsLastNew(x, y);
  }
}
