/**
 What hunks mean: applying them to the old lines at their recorded positions and counts. The hunks of
 a covering cut turn the old side of a script into its new side, and back.
 */
module Patch {
  import opened Wrappers
  import opened Text
  import opened EditScript
  import opened Hunks

  /** Applies hunks in order; `pos` old lines are consumed and `written` new lines produced so far. */
  function ApplyFrom(hunks: seq<Hunk>, before: seq<string>, pos: nat, written: nat): Option<seq<string>>
    requires pos <= |before|
  {
    if hunks == [] then Some(before[pos..])
    else
      var h := hunks[0];
      var at := h.oldStart - 1;
      if at < pos || at + h.oldCount > |before|
         || before[at..at + h.oldCount] != OldSide(h.lines)
         || |NewSide(h.lines)| != h.newCount
         || h.newStart - 1 != written + (at - pos)
      then None
      else
        match ApplyFrom(hunks[1..], before, at + h.oldCount, written + (at - pos) + h.newCount)
        case None => None
        case Some(rest) => Some(before[pos..at] + NewSide(h.lines) + rest)
  }

  function Apply(hunks: seq<Hunk>, before: seq<string>): Option<seq<string>> {
    ApplyFrom(hunks, before, 0, 0)
  }

  /** A hunk read from new to old. */
  function FlipHunk(h: Hunk): Hunk {
    Hunk(h.newStart, h.newCount, h.oldStart, h.oldCount, Flip(h.lines))
  }

  function FlipHunks(hunks: seq<Hunk>): (r: seq<Hunk>)
    ensures |r| == |hunks| && forall k :: 0 <= k < |r| ==> r[k] == FlipHunk(hunks[k])
  {
    seq(|hunks|, k requires 0 <= k < |hunks| => FlipHunk(hunks[k]))
  }

  /** From `start` on, the spans are in order, inside the script, and leave out no change. */
  ghost predicate Covers(edit: Script, spans: seq<Span>, start: nat)
    decreases |spans|
  {
    if spans == [] then start <= |edit| && Quiet(edit, start, |edit|)
    else
      && start <= spans[0].start <= spans[0].end <= |edit|
      && Quiet(edit, start, spans[0].start)
      && Covers(edit, spans[1..], spans[0].end)
  }

  lemma {:induction false} HunkingCoversFrom(edit: Script, contextLines: int, spans: seq<Span>, k: nat)
    requires Hunking(edit, contextLines, spans) && k <= |spans|
    ensures Covers(edit, spans[k..], if k == 0 then 0 else spans[k - 1].end)
    decreases |spans| - k
  {
    if k == |spans| {
      assert spans[k..] == [];
    } else {
      HunkingCoversFrom(edit, contextLines, spans, k + 1);
      assert spans[k..][1..] == spans[k + 1..];
      assert GoodSpan(edit, contextLines, spans[k]);
      assert k > 0 ==> Apart(edit, contextLines, spans[k - 1], spans[k]);
    }
  }

  lemma HunkingCovers(edit: Script, contextLines: int, spans: seq<Span>)
    requires Hunking(edit, contextLines, spans)
    ensures Covers(edit, spans, 0)
  {
    HunkingCoversFrom(edit, contextLines, spans, 0);
    assert spans[0..] == spans;
  }

  /** Covering depends only on which lines are changes. */
  lemma {:induction false} CoversSameKinds(edit: Script, other: Script, spans: seq<Span>, start: nat)
    requires |edit| == |other| && forall i :: 0 <= i < |edit| ==> IsChange(edit, i) == IsChange(other, i)
    requires Covers(edit, spans, start)
    ensures Covers(other, spans, start)
    decreases |spans|
  {
    if spans != [] {
      CoversSameKinds(edit, other, spans[1..], spans[0].end);
    }
  }

  /** A slice of a script sits on each side exactly between the lines before it and after it. */
  lemma SliceSides(edit: Script, i: nat, j: nat)
    requires i <= j <= |edit|
    ensures |OldSide(edit[..i])| <= |OldSide(edit[..j])| <= |OldSide(edit)|
    ensures OldSide(edit)[|OldSide(edit[..i])|..|OldSide(edit[..j])|] == OldSide(edit[i..j])
    ensures |OldSide(edit[..j])| == |OldSide(edit[..i])| + |OldSide(edit[i..j])|
    ensures |NewSide(edit[..j])| == |NewSide(edit[..i])| + |NewSide(edit[i..j])|
  {
    assert edit[..j] == edit[..i] + edit[i..j];
    assert edit == edit[..j] + edit[j..];
    SidesAppend(edit[..i], edit[i..j]);
    SidesAppend(edit[..j], edit[j..]);
  }

  lemma QuietSlice(edit: Script, i: nat, j: nat)
    requires i <= j <= |edit| && Quiet(edit, i, j)
    ensures OldSide(edit[i..j]) == NewSide(edit[i..j])
  {
    forall k | 0 <= k < j - i
      ensures edit[i..j][k].kind == Context
    {
      assert !IsChange(edit, i + k);
    }
    ContextOnly(edit[i..j]);
  }

  lemma NewSideSplit(edit: Script, i: nat, j: nat, k: nat)
    requires i <= j <= k <= |edit|
    ensures NewSide(edit[i..]) == NewSide(edit[i..j]) + NewSide(edit[j..k]) + NewSide(edit[k..])
  {
    assert edit[i..] == edit[i..k] + edit[k..];
    assert edit[i..k] == edit[i..j] + edit[j..k];
    NewSideAppend(edit[i..k], edit[k..]);
    NewSideAppend(edit[i..j], edit[j..k]);
  }

  lemma {:induction false} ApplyCovering(edit: Script, spans: seq<Span>, hunks: seq<Hunk>, start: nat)
    requires Covers(edit, spans, start) && HunksOf(edit, spans, hunks) && start <= |edit|
    ensures |OldSide(edit[..start])| <= |OldSide(edit)|
    ensures ApplyFrom(hunks, OldSide(edit), |OldSide(edit[..start])|, |NewSide(edit[..start])|)
         == Some(NewSide(edit[start..]))
    decreases |spans|
  {
    hide OldSide, NewSide;
    SliceSides(edit, start, |edit|);
    assert edit[..|edit|] == edit;
    if spans == [] {
      assert edit[start..|edit|] == edit[start..];
      QuietSlice(edit, start, |edit|);
      assert OldSide(edit)[|OldSide(edit[..start])|..] == OldSide(edit[start..]);
    } else {
      var s := spans[0];
      var h := hunks[0];
      var o0, o1, o2 := |OldSide(edit[..start])|, |OldSide(edit[..s.start])|, |OldSide(edit[..s.end])|;
      var n0, n2 := |NewSide(edit[..start])|, |NewSide(edit[..s.end])|;
      SliceSides(edit, start, s.start);
      SliceSides(edit, s.start, s.end);
      QuietSlice(edit, start, s.start);
      NewSideSplit(edit, start, s.start, s.end);
      HunksOfTail(edit, spans, hunks);
      ApplyCovering(edit, spans[1..], hunks[1..], s.end);
      assert h == HunkAt(edit, s.start, s.end);
      assert h.newStart - 1 == n0 + (o1 - o0) && n2 == h.newStart - 1 + h.newCount;
      var rest := NewSide(edit[s.end..]);
      ApplyStep(hunks, h, OldSide(edit), o0, n0, o1, o2, n2, rest);
      assert OldSide(edit)[o0..o1] + NewSide(h.lines) + rest == NewSide(edit[start..]);
    }
  }

  /** One hunk that fits is applied by copying up to it and writing its new side. */
  lemma ApplyStep(hunks: seq<Hunk>, h: Hunk, before: seq<string>, pos: nat, written: nat, at: nat, next: nat,
                  produced: nat, rest: seq<string>)
    requires hunks != [] && hunks[0] == h && pos <= at <= next <= |before|
    requires h.oldStart == at + 1 && h.oldCount == next - at && before[at..next] == OldSide(h.lines)
    requires |NewSide(h.lines)| == h.newCount && h.newStart - 1 == written + (at - pos)
    requires produced == h.newStart - 1 + h.newCount
    requires ApplyFrom(hunks[1..], before, next, produced) == Some(rest)
    ensures ApplyFrom(hunks, before, pos, written) == Some(before[pos..at] + NewSide(h.lines) + rest)
  {
    assert h.oldStart - 1 == at && at + h.oldCount == next;
    assert written + (at - pos) + h.newCount == produced;
  }

  lemma HunksOfTail(edit: Script, spans: seq<Span>, hunks: seq<Hunk>)
    requires HunksOf(edit, spans, hunks) && spans != []
    ensures HunksOf(edit, spans[1..], hunks[1..])
  {
    forall k | 0 <= k < |spans| - 1
      ensures var u := spans[1..][k]; u.start <= u.end <= |edit| && hunks[1..][k] == HunkAt(edit, u.start, u.end)
    {
      assert spans[1..][k] == spans[k + 1];
    }
  }

  /** Applying the hunks of a script to its old side yields exactly its new side. */
  lemma ApplyYieldsNew(edit: Script, spans: seq<Span>, hunks: seq<Hunk>)
    requires Covers(edit, spans, 0) && HunksOf(edit, spans, hunks)
    ensures Apply(hunks, OldSide(edit)) == Some(NewSide(edit))
  {
    ApplyCovering(edit, spans, hunks, 0);
    assert edit[0..] == edit && edit[..0] == [];
  }

  lemma FlipHunksOf(edit: Script, spans: seq<Span>, hunks: seq<Hunk>)
    requires HunksOf(edit, spans, hunks)
    ensures HunksOf(Flip(edit), spans, FlipHunks(hunks))
  {
    forall k | 0 <= k < |spans|
      ensures FlipHunks(hunks)[k] == HunkAt(Flip(edit), spans[k].start, spans[k].end)
    {
      var s := spans[k];
      assert s.start <= s.end <= |edit| && hunks[k] == HunkAt(edit, s.start, s.end);
      assert Flip(edit)[..s.start] == Flip(edit[..s.start]);
      assert Flip(edit)[s.start..s.end] == Flip(edit[s.start..s.end]);
      SidesFlip(edit[..s.start]);
      SidesFlip(edit[s.start..s.end]);
    }
  }

  /** Applying the same hunks in reverse to the new side yields exactly the old side. */
  lemma ApplyReverseYieldsOld(edit: Script, spans: seq<Span>, hunks: seq<Hunk>)
    requires Covers(edit, spans, 0) && HunksOf(edit, spans, hunks)
    ensures Apply(FlipHunks(hunks), NewSide(edit)) == Some(OldSide(edit))
  {
    assert forall i :: 0 <= i < |edit| ==> IsChange(edit, i) == IsChange(Flip(edit), i);
    CoversSameKinds(edit, Flip(edit), spans, 0);
    FlipHunksOf(edit, spans, hunks);
    ApplyYieldsNew(Flip(edit), spans, FlipHunks(hunks));
    SidesFlip(edit);
  }

  // ----- Length bookkeeping: what a hunk adds is what its additions and deletions say -----

  function Size(lines: seq<string>): nat {
    |Concat(lines)|
  }

  lemma SizeAppend(a: seq<string>, b: seq<string>)
    ensures Size(a + b) == Size(a) + Size(b)
  {
    ConcatAppend(a, b);
  }

  lemma SizeCut(lines: seq<string>, i: nat, j: nat, k: nat)
    requires i <= j <= k <= |lines|
    ensures Size(lines[i..]) == Size(lines[i..j]) + Size(lines[j..k]) + Size(lines[k..])
  {
    assert lines[i..] == lines[i..j] + lines[j..];
    assert lines[j..] == lines[j..k] + lines[k..];
    SizeAppend(lines[i..j], lines[j..]);
    SizeAppend(lines[j..k], lines[k..]);
  }

  function Growth(hunks: seq<Hunk>): int {
    if hunks == [] then 0
    else Size(NewSide(hunks[0].lines)) - Size(OldSide(hunks[0].lines)) + Growth(hunks[1..])
  }

  /** Whatever text hunks apply to, they change its length by their own growth. */
  lemma {:induction false} ApplyConserves(hunks: seq<Hunk>, before: seq<string>, pos: nat, written: nat)
    requires pos <= |before| && ApplyFrom(hunks, before, pos, written).Some?
    ensures Size(ApplyFrom(hunks, before, pos, written).value) == Size(before[pos..]) + Growth(hunks)
    decreases |hunks|
  {
    if hunks != [] {
      var h := hunks[0];
      var at := h.oldStart - 1;
      var next := at + h.oldCount;
      var rest := ApplyFrom(hunks[1..], before, next, written + (at - pos) + h.newCount).value;
      ApplyConserves(hunks[1..], before, next, written + (at - pos) + h.newCount);
      SizeAppend(before[pos..at] + NewSide(h.lines), rest);
      SizeAppend(before[pos..at], NewSide(h.lines));
      SizeCut(before, pos, at, next);
    }
  }

  /** The lengths of a script's sides, cut at two places. */
  lemma SplitSize(edit: Script, start: nat, a: nat, b: nat)
    requires start <= a <= b <= |edit|
    ensures Size(OldSide(edit[start..]))
         == Size(OldSide(edit[start..a])) + Size(OldSide(edit[a..b])) + Size(OldSide(edit[b..]))
    ensures Size(NewSide(edit[start..]))
         == Size(NewSide(edit[start..a])) + Size(NewSide(edit[a..b])) + Size(NewSide(edit[b..]))
  {
    hide Size, OldSide, NewSide;
    var x, y, z := edit[start..a], edit[a..b], edit[b..];
    assert edit[a..] == y + z;
    assert edit[start..] == x + edit[a..];
    SidesAppend(x, y + z);
    SidesAppend(y, z);
    SizeAppend(OldSide(x), OldSide(y) + OldSide(z));
    SizeAppend(OldSide(y), OldSide(z));
    SizeAppend(NewSide(x), NewSide(y) + NewSide(z));
    SizeAppend(NewSide(y), NewSide(z));
  }

  lemma {:induction false} GrowthOfCovering(edit: Script, spans: seq<Span>, hunks: seq<Hunk>, start: nat)
    requires Covers(edit, spans, start) && HunksOf(edit, spans, hunks) && start <= |edit|
    ensures Growth(hunks) == Size(NewSide(edit[start..])) - Size(OldSide(edit[start..]))
    decreases |spans|
  {
    if spans == [] {
      assert edit[start..|edit|] == edit[start..];
      QuietSlice(edit, start, |edit|);
    } else {
      var s := spans[0];
      QuietSlice(edit, start, s.start);
      SplitSize(edit, start, s.start, s.end);
      assert hunks[0] == HunkAt(edit, s.start, s.end);
      HunksOfTail(edit, spans, hunks);
      GrowthOfCovering(edit, spans[1..], hunks[1..], s.end);
    }
  }
}
