/**
 Which of several equally short scripts the diff computes: told of the script itself, without the table
 it was read from.
 */
module ScriptOrder {
  import opened EditScript

  /** In a replaced block the deletions come first. */
  predicate DeletionsFirst(s: Script) {
    forall i :: 0 <= i < |s| - 1 ==> !(s[i].kind == Addition && s[i + 1].kind == Deletion)
  }

  /** No script between the same lists of lines has fewer changes. */
  ghost predicate Fewest(s: Script) {
    forall t :: Transforms(t, OldSide(s), NewSide(s)) ==> Changes(s) <= Changes(t)
  }

  ghost predicate IsShortestWithLastAdded(t: Script, x: seq<string>, y: seq<string>) {
    t != [] && Last(t).kind == Addition && Transforms(t, x, y) && Fewest(t)
  }

  /** Some shortest script between two lists ends in an addition. */
  ghost predicate CanEndInAddition(x: seq<string>, y: seq<string>) {
    exists t :: IsShortestWithLastAdded(t, x, y)
  }

  /** Equal last lines are kept; otherwise the script ends in an addition whenever a shortest script can. */
  ghost predicate PrefersAdditionsLast(s: Script)
    requires s != []
  {
    var x, y := OldSide(s), NewSide(s);
    if x != [] && y != [] && Last(x) == Last(y) then Last(s).kind == Context
    else Last(s).kind == Addition <==> CanEndInAddition(x, y)
  }

  /** The same for every line of a script, from the last one back. */
  ghost predicate Preferred(s: Script)
    decreases |s|
  {
    s == [] || (Preferred(Init(s)) && PrefersAdditionsLast(s))
  }

  /** Two lists of lines have at most one preferred script. */
  lemma {:induction false} PreferredUnique(s: Script, t: Script)
    requires Preferred(s) && Preferred(t) && OldSide(s) == OldSide(t) && NewSide(s) == NewSide(t)
    ensures s == t
    decreases |s|
  {
    hide OldSide, NewSide, PrefersAdditionsLast;
    EmptySides(s);
    EmptySides(t);
    if s != [] && t != [] {
      LastUnique(s, t);
      InitSides(s);
      InitSides(t);
      PreferredUnique(Init(s), Init(t));
      assert s == Init(s) + [Last(s)] && t == Init(t) + [Last(t)];
    }
  }

  lemma LastUnique(s: Script, t: Script)
    requires s != [] && t != [] && PrefersAdditionsLast(s) && PrefersAdditionsLast(t)
    requires OldSide(s) == OldSide(t) && NewSide(s) == NewSide(t)
    ensures Last(s) == Last(t)
  {
    hide CanEndInAddition, OldSide, NewSide;
    LastsEqual(s);
    LastsEqual(t);
  }

  lemma EmptySides(s: Script)
    ensures s == [] <==> OldSide(s) == [] && NewSide(s) == []
  {
    SideLengths(s);
  }

  /** A kept last line is the last one of both sides. */
  lemma LastsEqual(s: Script)
    requires s != []
    ensures Last(s).kind != Addition ==> OldSide(s) != [] && Last(OldSide(s)) == Last(s).text
    ensures Last(s).kind != Deletion ==> NewSide(s) != [] && Last(NewSide(s)) == Last(s).text
  {
    hide OldSide, NewSide;
    SnocSides(s);
  }

  lemma InitSides(s: Script)
    requires s != []
    ensures Last(s).kind == Addition ==> OldSide(Init(s)) == OldSide(s)
    ensures Last(s).kind != Addition ==> OldSide(s) != [] && OldSide(Init(s)) == Init(OldSide(s))
    ensures Last(s).kind == Deletion ==> NewSide(Init(s)) == NewSide(s)
    ensures Last(s).kind != Deletion ==> NewSide(s) != [] && NewSide(Init(s)) == Init(NewSide(s))
  {
    hide OldSide, NewSide;
    SnocSides(s);
  }

  // ----- The backtracked script -----

  /** A shortest script can end in an addition exactly when the last new line is not needed for the longest match. */
  lemma AdditionExactlyWhen(x: seq<string>, y: seq<string>)
    ensures CanEndInAddition(x, y) <==> y != [] && Lcs(x, y) == Lcs(x, Init(y))
  {
    hide Lcs, Backtrack;
    BacktrackMinimal(x, y);
    BacktrackTransforms(x, y);
    if CanEndInAddition(x, y) {
      var t :| IsShortestWithLastAdded(t, x, y);
      InitSides(t);
      FewestChanges(Init(t), x, Init(y));
      SnocChanges(t);
      LcsStep(x, y);
    }
    if y != [] && Lcs(x, y) == Lcs(x, Init(y)) {
      BacktrackMinimal(x, Init(y));
      BacktrackTransforms(x, Init(y));
      var t := Backtrack(x, Init(y)) + [DiffLine(Addition, Last(y))];
      TransformsSnoc(Backtrack(x, Init(y)), x, y, DiffLine(Addition, Last(y)));
      assert Init(t) == Backtrack(x, Init(y));
      SnocChanges(t);
      assert IsShortestWithLastAdded(t, x, y);
    }
  }

  lemma SnocChanges(t: Script)
    requires t != []
    ensures Changes(t) == Changes(Init(t)) + if Last(t).kind == Context then 0 else 1
  {
    hide Count;
    assert t == Init(t) + [Last(t)];
    CountsAppend(Init(t), [Last(t)]);
    CountOne(Last(t));
  }

  lemma CountOne(l: DiffLine)
    ensures Count([l], Addition) == if l.kind == Addition then 1 else 0
    ensures Count([l], Deletion) == if l.kind == Deletion then 1 else 0
  {
  }

  /** The backtracked script is the preferred one. */
  lemma {:induction false} BacktrackPreferred(x: seq<string>, y: seq<string>)
    ensures Preferred(Backtrack(x, y))
    decreases |x| + |y|
  {
    hide CanEndInAddition, OldSide, NewSide, Transforms;
    var s := Backtrack(x, y);
    SidesOfBacktrack(x, y);
    AdditionExactlyWhen(x, y);
    if x != [] && y != [] && Last(x) == Last(y) {
      BacktrackPreferred(Init(x), Init(y));
      assert Init(s) == Backtrack(Init(x), Init(y));
    } else if y != [] && (x == [] || Lcs(x, Init(y)) >= Lcs(Init(x), y)) {
      BacktrackPreferred(x, Init(y));
      assert Init(s) == Backtrack(x, Init(y));
    } else if x != [] {
      BacktrackPreferred(Init(x), y);
      assert Init(s) == Backtrack(Init(x), y);
    }
  }

  lemma SidesOfBacktrack(x: seq<string>, y: seq<string>)
    ensures OldSide(Backtrack(x, y)) == x && NewSide(Backtrack(x, y)) == y
  {
    BacktrackTransforms(x, y);
  }

  /** It has its deletions first. */
  lemma {:induction false} BacktrackDeletionsFirst(x: seq<string>, y: seq<string>)
    ensures DeletionsFirst(Backtrack(x, y))
    decreases |x| + |y|
  {
    if x != [] && y != [] && Last(x) == Last(y) {
      BacktrackDeletionsFirst(Init(x), Init(y));
    } else if y != [] && (x == [] || Lcs(x, Init(y)) >= Lcs(Init(x), y)) {
      BacktrackDeletionsFirst(x, Init(y));
    } else if x != [] {
      BacktrackDeletionsFirst(Init(x), y);
      LcsStep(x, y);
      if y != [] {
        LcsStep(x, Init(y));
        LcsStep(Init(x), Init(y));
      }
    }
  }

  // ----- The scripts that are not backtracked -----

  lemma {:induction false} BacktrackOfEmpty(x: seq<string>, y: seq<string>)
    requires x == [] || y == []
    ensures Backtrack(x, y) == if x == [] then AllOf(y, Addition) else AllOf(x, Deletion)
    decreases |x| + |y|
  {
    if y != [] {
      BacktrackOfEmpty(x, Init(y));
      assert AllOf(y, Addition) == AllOf(Init(y), Addition) + [DiffLine(Addition, Last(y))];
    } else if x != [] {
      BacktrackOfEmpty(Init(x), y);
      assert AllOf(x, Deletion) == AllOf(Init(x), Deletion) + [DiffLine(Deletion, Last(x))];
    }
  }

  lemma {:induction false} AllContextPreferred(lines: seq<string>)
    ensures Preferred(AllOf(lines, Context))
  {
    hide CanEndInAddition;
    SidesAllOf(lines, Context);
    if lines != [] {
      assert Init(AllOf(lines, Context)) == AllOf(Init(lines), Context);
      AllContextPreferred(Init(lines));
    }
  }

  /** All old lines deleted in order, then all new lines added in order. */
  predicate Replaces(s: Script, x: seq<string>, y: seq<string>) {
    && |s| == |x| + |y|
    && (forall i :: 0 <= i < |x| ==> s[i] == DiffLine(Deletion, x[i]))
    && (forall j :: 0 <= j < |y| ==> s[|x| + j] == DiffLine(Addition, y[j]))
  }
}
