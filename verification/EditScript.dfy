/**
 Edit scripts between two lists of lines: what a script says, the longest common subsequence
 that bounds how short it can be, and the script the line diff assembles.
 */
module EditScript {

  datatype Kind = Context | Addition | Deletion

  datatype DiffLine = DiffLine(kind: Kind, text: string)

  type Script = seq<DiffLine>

  /** What one script line reads from the old text. */
  function OldPart(l: DiffLine): seq<string> {
    if l.kind == Addition then [] else [l.text]
  }

  /** What one script line writes to the new text. */
  function NewPart(l: DiffLine): seq<string> {
    if l.kind == Deletion then [] else [l.text]
  }

  /** The lines a script reads: everything it does not add. */
  function OldSide(s: Script): seq<string> {
    if s == [] then [] else OldPart(s[0]) + OldSide(s[1..])
  }

  /** The lines a script writes: everything it does not delete. */
  function NewSide(s: Script): seq<string> {
    if s == [] then [] else NewPart(s[0]) + NewSide(s[1..])
  }

  function Count(s: Script, kind: Kind): (n: nat)
    ensures n <= |s|
  {
    if s == [] then 0 else (if s[0].kind == kind then 1 else 0) + Count(s[1..], kind)
  }

  /** The cost of a script: its additions plus its deletions. */
  function Changes(s: Script): nat {
    Count(s, Addition) + Count(s, Deletion)
  }

  ghost predicate Transforms(s: Script, before: seq<string>, after: seq<string>) {
    OldSide(s) == before && NewSide(s) == after
  }

  /** The same script read from new to old. */
  function Flip(s: Script): (r: Script)
    ensures |r| == |s|
    ensures forall i :: 0 <= i < |s| ==> r[i] == FlipLine(s[i])
  {
    seq(|s|, i requires 0 <= i < |s| => FlipLine(s[i]))
  }

  function FlipLine(l: DiffLine): DiffLine {
    DiffLine(match l.kind case Context => Context case Addition => Deletion case Deletion => Addition, l.text)
  }

  /** Every line of a list as a script line of one kind. */
  function AllOf(lines: seq<string>, kind: Kind): (s: Script)
    ensures |s| == |lines|
    ensures forall i :: 0 <= i < |lines| ==> s[i] == DiffLine(kind, lines[i])
  {
    seq(|lines|, i requires 0 <= i < |lines| => DiffLine(kind, lines[i]))
  }

  // ----- How sides and counts behave -----

  lemma {:induction false} OldSideAppend(s: Script, t: Script)
    ensures OldSide(s + t) == OldSide(s) + OldSide(t)
  {
    if s == [] {
      assert s + t == t;
    } else {
      assert (s + t)[1..] == s[1..] + t;
      OldSideAppend(s[1..], t);
    }
  }

  lemma {:induction false} NewSideAppend(s: Script, t: Script)
    ensures NewSide(s + t) == NewSide(s) + NewSide(t)
  {
    if s == [] {
      assert s + t == t;
    } else {
      assert (s + t)[1..] == s[1..] + t;
      NewSideAppend(s[1..], t);
    }
  }

  lemma SidesAppend(s: Script, t: Script)
    ensures OldSide(s + t) == OldSide(s) + OldSide(t)
    ensures NewSide(s + t) == NewSide(s) + NewSide(t)
  {
    OldSideAppend(s, t);
    NewSideAppend(s, t);
  }

  lemma {:induction false} CountAppend(s: Script, t: Script, kind: Kind)
    ensures Count(s + t, kind) == Count(s, kind) + Count(t, kind)
  {
    if s == [] {
      assert s + t == t;
    } else {
      assert (s + t)[1..] == s[1..] + t;
      CountAppend(s[1..], t, kind);
    }
  }

  lemma CountsAppend(s: Script, t: Script)
    ensures Count(s + t, Context) == Count(s, Context) + Count(t, Context)
    ensures Count(s + t, Addition) == Count(s, Addition) + Count(t, Addition)
    ensures Count(s + t, Deletion) == Count(s, Deletion) + Count(t, Deletion)
  {
    CountAppend(s, t, Context);
    CountAppend(s, t, Addition);
    CountAppend(s, t, Deletion);
  }

  lemma {:induction false} SideLengths(s: Script)
    ensures |OldSide(s)| == Count(s, Context) + Count(s, Deletion)
    ensures |NewSide(s)| == Count(s, Context) + Count(s, Addition)
    ensures |s| == Count(s, Context) + Count(s, Addition) + Count(s, Deletion)
  {
    if s != [] {
      SideLengths(s[1..]);
    }
  }

  lemma {:induction false} SidesFlip(s: Script)
    ensures OldSide(Flip(s)) == NewSide(s) && NewSide(Flip(s)) == OldSide(s)
    ensures Flip(Flip(s)) == s
  {
    if s != [] {
      assert Flip(s)[1..] == Flip(s[1..]);
      SidesFlip(s[1..]);
    }
  }

  lemma {:induction false} SidesAllOf(lines: seq<string>, kind: Kind)
    ensures OldSide(AllOf(lines, kind)) == if kind == Addition then [] else lines
    ensures NewSide(AllOf(lines, kind)) == if kind == Deletion then [] else lines
    ensures Count(AllOf(lines, kind), Addition) == if kind == Addition then |lines| else 0
    ensures Count(AllOf(lines, kind), Deletion) == if kind == Deletion then |lines| else 0
  {
    CountAllOf(lines, kind, Addition);
    CountAllOf(lines, kind, Deletion);
    hide Count;
    if lines != [] {
      var s := AllOf(lines, kind);
      assert s[0] == DiffLine(kind, lines[0]) && s[1..] == AllOf(lines[1..], kind);
      SidesAllOf(lines[1..], kind);
      assert [lines[0]] + lines[1..] == lines;
    }
  }

  lemma {:induction false} CountAllOf(lines: seq<string>, kind: Kind, counted: Kind)
    ensures Count(AllOf(lines, kind), counted) == if kind == counted then |lines| else 0
  {
    if lines != [] {
      var s := AllOf(lines, kind);
      assert s[0] == DiffLine(kind, lines[0]) && s[1..] == AllOf(lines[1..], kind);
      CountAllOf(lines[1..], kind, counted);
    }
  }

  /** A script that changes nothing reads and writes the same lines. */
  lemma {:induction false} ContextOnly(s: Script)
    requires forall i :: 0 <= i < |s| ==> s[i].kind == Context
    ensures OldSide(s) == NewSide(s) && |OldSide(s)| == |s|
    ensures Count(s, Context) == |s| && Changes(s) == 0
  {
    if s != [] {
      ContextOnly(s[1..]);
    }
  }

  lemma {:induction false} NoChangesMeansContext(s: Script)
    requires Changes(s) == 0
    ensures forall i :: 0 <= i < |s| ==> s[i].kind == Context
  {
    if s != [] {
      NoChangesMeansContext(s[1..]);
      assert forall i :: 1 <= i < |s| ==> s[i] == s[1..][i - 1];
    }
  }

  // ----- The longest common subsequence -----

  function Init<T>(s: seq<T>): seq<T>
    requires s != []
  {
    s[..|s| - 1]
  }

  function Last<T>(s: seq<T>): T
    requires s != []
  {
    s[|s| - 1]
  }

  function Max(a: nat, b: nat): nat {
    if a > b then a else b
  }

  function Lcs(a: seq<string>, b: seq<string>): nat
    decreases |a| + |b|
  {
    if a == [] || b == [] then 0
    else if Last(a) == Last(b) then Lcs(Init(a), Init(b)) + 1
    else Max(Lcs(a, Init(b)), Lcs(Init(a), b))
  }

  predicate ShareNoLine(a: seq<string>, b: seq<string>) {
    forall i, j :: 0 <= i < |a| && 0 <= j < |b| ==> a[i] != b[j]
  }

  /** Two lists have nothing in common exactly when no line is in both. */
  lemma {:induction false} NothingInCommon(a: seq<string>, b: seq<string>)
    ensures Lcs(a, b) == 0 <==> ShareNoLine(a, b)
    decreases |a| + |b|
  {
    if a != [] && b != [] {
      NothingInCommon(a, Init(b));
      NothingInCommon(Init(a), b);
      assert Last(a) == a[|a| - 1] && Last(b) == b[|b| - 1];
      forall i, j |
        0 <= i < |a| && 0 <= j < |b|
        && Last(a) != Last(b) && ShareNoLine(a, Init(b)) && ShareNoLine(Init(a), b)
        ensures a[i] != b[j]
      {
        if i < |a| - 1 { assert Init(a)[i] == a[i]; }
        if j < |b| - 1 { assert Init(b)[j] == b[j]; }
      }
    }
  }

  ghost predicate IsSubsequence(c: seq<string>, a: seq<string>)
    decreases |a|
  {
    c == [] ||
    (a != [] && ((Last(c) == Last(a) && IsSubsequence(Init(c), Init(a))) || IsSubsequence(c, Init(a))))
  }

  /** One more line changes the longest common subsequence by at most one. */
  lemma {:induction false} LcsStep(a: seq<string>, b: seq<string>)
    ensures a != [] ==> Lcs(Init(a), b) <= Lcs(a, b) <= Lcs(Init(a), b) + 1
    ensures b != [] ==> Lcs(a, Init(b)) <= Lcs(a, b) <= Lcs(a, Init(b)) + 1
    decreases |a| + |b|
  {
    if a != [] && b != [] {
      LcsStep(Init(a), b);
      LcsStep(a, Init(b));
      LcsStep(Init(a), Init(b));
    }
  }

  /** `Lcs` is an upper bound: no common subsequence is longer. */
  lemma {:induction false} LcsBounds(c: seq<string>, a: seq<string>, b: seq<string>)
    requires IsSubsequence(c, a) && IsSubsequence(c, b)
    ensures |c| <= Lcs(a, b)
    decreases |a| + |b|
  {
    if c != [] {
      LcsStep(a, b);
      if IsSubsequence(c, Init(a)) {
        LcsBounds(c, Init(a), b);
      } else if IsSubsequence(c, Init(b)) {
        LcsBounds(c, a, Init(b));
      } else {
        LcsBounds(Init(c), Init(a), Init(b));
      }
    }
  }

  /** `Lcs` is reached: some common subsequence is that long. */
  lemma {:induction false} LcsReached(a: seq<string>, b: seq<string>) returns (c: seq<string>)
    ensures IsSubsequence(c, a) && IsSubsequence(c, b) && |c| == Lcs(a, b)
    decreases |a| + |b|
  {
    if a == [] || b == [] {
      c := [];
    } else if Last(a) == Last(b) {
      var d := LcsReached(Init(a), Init(b));
      c := d + [Last(a)];
      assert Init(c) == d;
    } else if Lcs(a, Init(b)) > Lcs(Init(a), b) {
      c := LcsReached(a, Init(b));
    } else {
      c := LcsReached(Init(a), b);
    }
  }

  lemma Snoc(s: Script, l: DiffLine)
    ensures OldSide(s + [l]) == OldSide(s) + OldPart(l)
    ensures NewSide(s + [l]) == NewSide(s) + NewPart(l)
    ensures Count(s + [l], Context) == Count(s, Context) + if l.kind == Context then 1 else 0
  {
    SidesAppend(s, [l]);
    CountAppend(s, [l], Context);
    assert OldSide([l]) == OldPart(l) && NewSide([l]) == NewPart(l);
  }

  lemma SnocSides(s: Script)
    requires s != []
    ensures OldSide(s) == OldSide(Init(s)) + OldPart(Last(s))
    ensures NewSide(s) == NewSide(Init(s)) + NewPart(Last(s))
    ensures Count(s, Context) == Count(Init(s), Context) + if Last(s).kind == Context then 1 else 0
  {
    assert s == Init(s) + [Last(s)];
    Snoc(Init(s), Last(s));
  }

  /** The lines a script keeps are a common subsequence, so no script keeps more than `Lcs`. */
  lemma {:induction false} KeptLinesBounded(s: Script)
    ensures Count(s, Context) <= Lcs(OldSide(s), NewSide(s))
    decreases |s|
  {
    if s != [] {
      var t := Init(s);
      KeptLinesBounded(t);
      SnocSides(s);
      LcsStep(OldSide(s), NewSide(s));
      match Last(s).kind
      case Context =>
        assert Init(OldSide(s)) == OldSide(t) && Init(NewSide(s)) == NewSide(t);
      case Addition =>
        assert Init(NewSide(s)) == NewSide(t) && OldSide(s) == OldSide(t);
      case Deletion =>
        assert Init(OldSide(s)) == OldSide(t) && NewSide(s) == NewSide(t);
    }
  }

  /** No script between two lists of lines is shorter than the lists minus twice their `Lcs`. */
  lemma FewestChanges(s: Script, before: seq<string>, after: seq<string>)
    requires Transforms(s, before, after)
    ensures Changes(s) >= |before| + |after| - 2 * Lcs(before, after)
  {
    KeptLinesBounded(s);
    SideLengths(s);
  }

  // ----- The script the backtrack assembles -----

  /** Reads the table of `Lcs` values from the end, preferring an addition on a tie. */
  function Backtrack(a: seq<string>, b: seq<string>): Script
    decreases |a| + |b|
  {
    if a != [] && b != [] && Last(a) == Last(b) then
      Backtrack(Init(a), Init(b)) + [DiffLine(Context, Last(a))]
    else if b != [] && (a == [] || Lcs(a, Init(b)) >= Lcs(Init(a), b)) then
      Backtrack(a, Init(b)) + [DiffLine(Addition, Last(b))]
    else if a != [] then
      Backtrack(Init(a), b) + [DiffLine(Deletion, Last(a))]
    else
      []
  }

  /** The backtracked script turns the old lines into the new ones. */
  lemma {:induction false} BacktrackTransforms(a: seq<string>, b: seq<string>)
    ensures Transforms(Backtrack(a, b), a, b)
    decreases |a| + |b|
  {
    hide Transforms, Lcs;
    if a != [] && b != [] && Last(a) == Last(b) {
      BacktrackTransforms(Init(a), Init(b));
      TransformsSnoc(Backtrack(Init(a), Init(b)), a, b, DiffLine(Context, Last(a)));
    } else if b != [] && (a == [] || Lcs(a, Init(b)) >= Lcs(Init(a), b)) {
      BacktrackTransforms(a, Init(b));
      TransformsSnoc(Backtrack(a, Init(b)), a, b, DiffLine(Addition, Last(b)));
    } else if a != [] {
      BacktrackTransforms(Init(a), b);
      TransformsSnoc(Backtrack(Init(a), b), a, b, DiffLine(Deletion, Last(a)));
    } else {
      NothingTransforms();
    }
  }

  lemma NothingTransforms()
    ensures Transforms([], [], [])
  {
  }

  /** A script for the lines without a last one, and that one at the end. */
  lemma TransformsSnoc(s: Script, a: seq<string>, b: seq<string>, l: DiffLine)
    requires l.kind != Addition ==> a != [] && Last(a) == l.text
    requires l.kind != Deletion ==> b != [] && Last(b) == l.text
    requires Transforms(s, if l.kind == Addition then a else Init(a), if l.kind == Deletion then b else Init(b))
    ensures Transforms(s + [l], a, b)
  {
    hide OldSide, NewSide, Count;
    Snoc(s, l);
    match l.kind
    case Context =>
      assert Init(a) + [l.text] == a && Init(b) + [l.text] == b;
    case Addition =>
      assert a + [] == a && Init(b) + [l.text] == b;
    case Deletion =>
      assert Init(a) + [l.text] == a && b + [] == b;
  }

  /** The backtracked script keeps as many lines as any script can. */
  lemma {:induction false} BacktrackKeeps(a: seq<string>, b: seq<string>)
    ensures Count(Backtrack(a, b), Context) == Lcs(a, b)
    decreases |a| + |b|
  {
    if a != [] && b != [] && Last(a) == Last(b) {
      BacktrackKeeps(Init(a), Init(b));
      CountAppend(Backtrack(Init(a), Init(b)), [DiffLine(Context, Last(a))], Context);
    } else if b != [] && (a == [] || Lcs(a, Init(b)) >= Lcs(Init(a), b)) {
      BacktrackKeeps(a, Init(b));
      CountAppend(Backtrack(a, Init(b)), [DiffLine(Addition, Last(b))], Context);
    } else if a != [] {
      BacktrackKeeps(Init(a), b);
      CountAppend(Backtrack(Init(a), b), [DiffLine(Deletion, Last(a))], Context);
    }
  }

  /** Minimality: the backtracked script has the fewest additions plus deletions of any script. */
  lemma BacktrackMinimal(a: seq<string>, b: seq<string>)
    ensures Changes(Backtrack(a, b)) == |a| + |b| - 2 * Lcs(a, b)
    ensures forall s :: Transforms(s, a, b) ==> Changes(Backtrack(a, b)) <= Changes(s)
  {
    BacktrackTransforms(a, b);
    BacktrackKeeps(a, b);
    SideLengths(Backtrack(a, b));
    forall s | Transforms(s, a, b)
      ensures Changes(Backtrack(a, b)) <= Changes(s)
    {
      FewestChanges(s, a, b);
    }
  }
}
