/**
 The line diff of two texts: a longest-common-subsequence table in one flat array, and the loop
 that reads it backwards into an edit script.
 */
module LineDiff {
  import opened Text
  import opened EditScript
  import opened ScriptOrder

  /** Above this many table cells the diff replaces the whole text instead. */
  const MAX_LCS_MATRIX_CELLS: nat := 4_000_000

  newtype int32 = x: int | -0x8000_0000 <= x < 0x8000_0000

  /** True when the two texts are small enough to be matched line by line. */
  predicate WithinMatrixLimit(oldText: string, newText: string) {
    |TextLines(oldText)| * |TextLines(newText)| <= MAX_LCS_MATRIX_CELLS
  }

  /** The edit script the diff computes. */
  function EditLines(oldText: string, newText: string): Script {
    var x, y := TextLines(oldText), TextLines(newText);
    if oldText == newText then AllOf(x, Context)
    else if x == [] then AllOf(y, Addition)
    else if y == [] then AllOf(x, Deletion)
    else if !WithinMatrixLimit(oldText, newText) then AllOf(x, Deletion) + AllOf(y, Addition)
    else Backtrack(x, y)
  }

  /** Whichever way it is computed, the script turns the old lines into the new lines. */
  lemma EditLinesTransform(oldText: string, newText: string)
    ensures Transforms(EditLines(oldText, newText), TextLines(oldText), TextLines(newText))
  {
    var x, y := TextLines(oldText), TextLines(newText);
    if oldText == newText {
      SidesAllOf(x, Context);
    } else if x == [] {
      SidesAllOf(y, Addition);
    } else if y == [] {
      SidesAllOf(x, Deletion);
    } else if !WithinMatrixLimit(oldText, newText) {
      ReplaceAll(x, y);
    } else {
      BacktrackTransforms(x, y);
    }
  }

  /** Deleting every old line and adding every new one is correct and costs all of them. */
  lemma ReplaceAll(x: seq<string>, y: seq<string>)
    ensures Transforms(AllOf(x, Deletion) + AllOf(y, Addition), x, y)
    ensures Count(AllOf(x, Deletion) + AllOf(y, Addition), Addition) == |y|
    ensures Count(AllOf(x, Deletion) + AllOf(y, Addition), Deletion) == |x|
  {
    SidesAllOf(x, Deletion);
    SidesAllOf(y, Addition);
    SidesAppend(AllOf(x, Deletion), AllOf(y, Addition));
    CountsAppend(AllOf(x, Deletion), AllOf(y, Addition));
  }

  /** Within the limit the script costs exactly what the longest common subsequence leaves over. */
  lemma EditLinesCost(oldText: string, newText: string)
    requires WithinMatrixLimit(oldText, newText) && oldText != newText
    ensures Changes(EditLines(oldText, newText))
      == |TextLines(oldText)| + |TextLines(newText)| - 2 * Lcs(TextLines(oldText), TextLines(newText))
  {
    var x, y := TextLines(oldText), TextLines(newText);
    if x == [] {
      SidesAllOf(y, Addition);
    } else if y == [] {
      SidesAllOf(x, Deletion);
    } else {
      BacktrackMinimal(x, y);
    }
  }

  /** Within the limit no script between the two texts has fewer changes. */
  lemma EditLinesMinimal(oldText: string, newText: string)
    requires WithinMatrixLimit(oldText, newText)
    ensures forall s :: Transforms(s, TextLines(oldText), TextLines(newText)) ==>
      Changes(EditLines(oldText, newText)) <= Changes(s)
  {
    if oldText == newText {
      SidesAllOf(TextLines(oldText), Context);
    } else {
      EditLinesCost(oldText, newText);
      forall s | Transforms(s, TextLines(oldText), TextLines(newText))
        ensures Changes(EditLines(oldText, newText)) <= Changes(s)
      {
        FewestChanges(s, TextLines(oldText), TextLines(newText));
      }
    }
  }

  /**
   Exactly when the script has the fewest possible changes: within the limit always; above it, for
   different texts, only if they have no line in common.
   */
  lemma MinimalExactlyWhen(oldText: string, newText: string)
    ensures (forall s :: Transforms(s, TextLines(oldText), TextLines(newText)) ==>
              Changes(EditLines(oldText, newText)) <= Changes(s))
       <==> (WithinMatrixLimit(oldText, newText) || oldText == newText
              || ShareNoLine(TextLines(oldText), TextLines(newText)))
  {
    var x, y := TextLines(oldText), TextLines(newText);
    var e := EditLines(oldText, newText);
    if WithinMatrixLimit(oldText, newText) {
      EditLinesMinimal(oldText, newText);
    } else if oldText == newText {
      SidesAllOf(x, Context);
    } else {
      ReplaceAll(x, y);
      NothingInCommon(x, y);
      assert Changes(e) == |x| + |y|;
      BacktrackMinimal(x, y);
      BacktrackTransforms(x, y);
    }
  }

  /** Within the limit the script is the preferred one; above it, everything is replaced; deletions come first. */
  lemma EditLinesOrder(oldText: string, newText: string)
    ensures DeletionsFirst(EditLines(oldText, newText))
    ensures WithinMatrixLimit(oldText, newText) ==> Preferred(EditLines(oldText, newText))
    ensures !WithinMatrixLimit(oldText, newText) && oldText != newText ==>
      Replaces(EditLines(oldText, newText), TextLines(oldText), TextLines(newText))
  {
    hide Preferred;
    var x, y := TextLines(oldText), TextLines(newText);
    if oldText == newText {
      AllContextPreferred(x);
    } else if x == [] || y == [] {
      BacktrackOfEmpty(x, y);
      BacktrackPreferred(x, y);
      BacktrackDeletionsFirst(x, y);
    } else if WithinMatrixLimit(oldText, newText) {
      BacktrackPreferred(x, y);
      BacktrackDeletionsFirst(x, y);
    }
  }

  /** Where cell (i, j) of a table of `rows` rows sits in the flat array. */
  function Cell(rows: nat, stride: nat, i: nat, j: nat): (k: nat)
    requires i < rows && j < stride
    ensures k < rows * stride
  {
    RowsApart(stride, i, rows);
    i * stride + j
  }

  lemma {:induction false} RowsApart(stride: nat, i: nat, r: nat)
    requires i < r
    ensures i * stride + stride <= r * stride
  {
    assert r * stride == (r - 1) * stride + stride;
    if i < r - 1 {
      RowsApart(stride, i, r - 1);
    }
  }

  /** Different cells have different places. */
  lemma CellInjective(rows: nat, stride: nat, i: nat, j: nat, r: nat, c: nat)
    requires i < rows && r < rows && j < stride && c < stride
    requires Cell(rows, stride, i, j) == Cell(rows, stride, r, c)
    ensures i == r && j == c
  {
    if i != r {
      RowsApart(stride, if i < r then i else r, if i < r then r else i);
    }
  }

  lemma {:induction false} LcsAtMost(a: seq<string>, b: seq<string>)
    ensures Lcs(a, b) <= |a|
    decreases |a| + |b|
  {
    if a != [] && b != [] {
      LcsAtMost(Init(a), Init(b));
      LcsAtMost(a, Init(b));
      LcsAtMost(Init(a), b);
    }
  }

  /** Rows up to `row`, the first `col` columns of the next one and the whole first column are done. */
  ghost predicate Filled(dp: seq<int32>, x: seq<string>, y: seq<string>, row: nat, col: nat)
  {
    var rows, stride := |x| + 1, |y| + 1;
    |dp| == rows * stride &&
    forall r: nat, c: nat :: r <= |x| && c <= |y| && (r <= row || c == 0 || (r == row + 1 && c <= col)) ==>
      dp[Cell(rows, stride, r, c)] as int == Lcs(x[..r], y[..c])
  }

  /** Storing the right value in the next cell fills one more cell and disturbs no other. */
  lemma StoreCell(before: seq<int32>, after: seq<int32>, x: seq<string>, y: seq<string>, i: nat, j: nat)
    requires i < |x| && j < |y| && Filled(before, x, y, i, j)
    requires |after| == |before|
    requires after == before[Cell(|x| + 1, |y| + 1, i + 1, j + 1) := after[Cell(|x| + 1, |y| + 1, i + 1, j + 1)]]
    requires after[Cell(|x| + 1, |y| + 1, i + 1, j + 1)] as int == Lcs(x[..i + 1], y[..j + 1])
    ensures Filled(after, x, y, i, j + 1)
  {
    var rows, stride := |x| + 1, |y| + 1;
    forall r: nat, c: nat | r <= |x| && c <= |y| && (r <= i || c == 0 || (r == i + 1 && c <= j + 1))
      ensures after[Cell(rows, stride, r, c)] as int == Lcs(x[..r], y[..c])
    {
      if Cell(rows, stride, r, c) == Cell(rows, stride, i + 1, j + 1) {
        CellInjective(rows, stride, r, c, i + 1, j + 1);
      }
    }
  }

  /** The recurrence on prefixes: a match extends the diagonal, a mismatch takes the better neighbour. */
  lemma LcsOfPrefixes(x: seq<string>, y: seq<string>, i: nat, j: nat)
    requires i < |x| && j < |y|
    ensures Lcs(x[..i + 1], y[..j + 1]) ==
      if x[i] == y[j] then Lcs(x[..i], y[..j]) + 1
      else Max(Lcs(x[..i + 1], y[..j]), Lcs(x[..i], y[..j + 1]))
    ensures Lcs(x[..i], y[..j]) <= |x|
  {
    assert Init(x[..i + 1]) == x[..i] && Init(y[..j + 1]) == y[..j];
    LcsAtMost(x[..i], y[..j]);
  }

  lemma CellFilled(dp: seq<int32>, x: seq<string>, y: seq<string>, row: nat, col: nat, r: nat, c: nat)
    requires Filled(dp, x, y, row, col)
    requires r <= |x| && c <= |y| && (r <= row || c == 0 || (r == row + 1 && c <= col))
    ensures |dp| == (|x| + 1) * (|y| + 1)
    ensures dp[Cell(|x| + 1, |y| + 1, r, c)] as int == Lcs(x[..r], y[..c])
  {
    hide Cell, Lcs;
  }

  lemma NothingFilled(dp: seq<int32>, x: seq<string>, y: seq<string>)
    requires |dp| == (|x| + 1) * (|y| + 1) && forall k :: 0 <= k < |dp| ==> dp[k] == 0
    ensures Filled(dp, x, y, 0, 0)
  {
    hide Cell;
    forall r: nat, c: nat | r <= |x| && c <= |y| && (r == 0 || c == 0)
      ensures Lcs(x[..r], y[..c]) == 0
    {
    }
  }

  lemma RowFilled(dp: seq<int32>, x: seq<string>, y: seq<string>, row: nat)
    requires Filled(dp, x, y, row, |y|)
    ensures Filled(dp, x, y, row + 1, 0)
  {
    hide Cell, Lcs;
  }

  /** Fills the flat table: every cell holds the `Lcs` of the two prefixes that end there. */
  method FillTable(x: seq<string>, y: seq<string>) returns (dp: array<int32>)
    requires |x| < 0x7fff_ffff
    ensures Filled(dp[..], x, y, |x|, 0)
  {
    var m, n := |x|, |y|;
    var rows, stride := m + 1, n + 1;
    hide Filled, Cell, Lcs;
    dp := new int32[rows * stride](_ => 0);
    NothingFilled(dp[..], x, y);
    for i := 0 to m
      invariant Filled(dp[..], x, y, i, 0)
    {
      for j := 0 to n
        invariant Filled(dp[..], x, y, i, j)
      {
        ghost var before := dp[..];
        CellFilled(before, x, y, i, j, i, j);
        CellFilled(before, x, y, i, j, i + 1, j);
        CellFilled(before, x, y, i, j, i, j + 1);
        LcsOfPrefixes(x, y, i, j);
        if x[i] == y[j] {
          dp[Cell(rows, stride, i + 1, j + 1)] := dp[Cell(rows, stride, i, j)] + 1;
        } else {
          var left := dp[Cell(rows, stride, i + 1, j)];
          var up := dp[Cell(rows, stride, i, j + 1)];
          dp[Cell(rows, stride, i + 1, j + 1)] := if left > up then left else up;
        }
        StoreCell(before, dp[..], x, y, i, j);
      }
      RowFilled(dp[..], x, y, i);
    }
  }

  function Reverse<T>(s: seq<T>): seq<T> {
    if s == [] then [] else Reverse(s[1..]) + [s[0]]
  }

  lemma {:induction false} ReverseSnoc<T>(s: seq<T>, x: T)
    ensures Reverse(s + [x]) == [x] + Reverse(s)
  {
    if s == [] {
      assert Reverse([x]) == [x];
    } else {
      assert (s + [x])[1..] == s[1..] + [x];
      ReverseSnoc(s[1..], x);
    }
  }

  /** Computes the edit script between two texts and counts its additions and deletions. */
  method ComputeLineDiff(oldText: string, newText: string)
    returns (lines: Script, additions: nat, deletions: nat)
    ensures lines == EditLines(oldText, newText)
    ensures Transforms(lines, TextLines(oldText), TextLines(newText))
    ensures additions == Count(lines, Addition) && deletions == Count(lines, Deletion)
    ensures WithinMatrixLimit(oldText, newText) ==>
      forall s :: Transforms(s, TextLines(oldText), TextLines(newText)) ==> additions + deletions <= Changes(s)
    ensures DeletionsFirst(lines)
    ensures WithinMatrixLimit(oldText, newText) ==> Preferred(lines)
    ensures !WithinMatrixLimit(oldText, newText) && oldText != newText ==>
      Replaces(lines, TextLines(oldText), TextLines(newText))
  {
    hide Preferred, DeletionsFirst;
    EditLinesOrder(oldText, newText);
    EditLinesTransform(oldText, newText);
    if WithinMatrixLimit(oldText, newText) {
      EditLinesMinimal(oldText, newText);
    }
    if oldText == newText {
      SidesAllOf(TextLines(oldText), Context);
      return AllOf(TextLines(oldText), Context), 0, 0;
    }
    var x, y := TextLines(oldText), TextLines(newText);
    SidesAllOf(x, Deletion);
    SidesAllOf(y, Addition);
    if |x| == 0 {
      return AllOf(y, Addition), |y|, 0;
    }
    if |y| == 0 {
      return AllOf(x, Deletion), 0, |x|;
    }
    if |x| * |y| > MAX_LCS_MATRIX_CELLS {
      ReplaceAll(x, y);
      return AllOf(x, Deletion) + AllOf(y, Addition), |y|, |x|;
    }
    lines, additions, deletions := AssembleScript(x, y);
  }

  /** One step of the walk, on the prefixes that are left: which line comes last. */
  lemma BacktrackStep(x: seq<string>, y: seq<string>, i: nat, j: nat)
    requires i <= |x| && j <= |y| && (i > 0 || j > 0)
    ensures Backtrack(x[..i], y[..j]) ==
      if i > 0 && j > 0 && x[i - 1] == y[j - 1] then
        Backtrack(x[..i - 1], y[..j - 1]) + [DiffLine(Context, x[i - 1])]
      else if j > 0 && (i == 0 || Lcs(x[..i], y[..j - 1]) >= Lcs(x[..i - 1], y[..j])) then
        Backtrack(x[..i], y[..j - 1]) + [DiffLine(Addition, y[j - 1])]
      else
        Backtrack(x[..i - 1], y[..j]) + [DiffLine(Deletion, x[i - 1])]
  {
    assert i > 0 ==> Init(x[..i]) == x[..i - 1] && Last(x[..i]) == x[i - 1];
    assert j > 0 ==> Init(y[..j]) == y[..j - 1] && Last(y[..j]) == y[j - 1];
  }

  /** Pushing a line on the reversed script moves it from the part to walk to the part done. */
  lemma PushLine(whole: Script, head: Script, line: DiffLine, raw: Script)
    requires whole == head + [line] + Reverse(raw)
    ensures whole == head + Reverse(raw + [line])
    ensures Count(Reverse(raw + [line]), Addition) ==
      Count(Reverse(raw), Addition) + if line.kind == Addition then 1 else 0
    ensures Count(Reverse(raw + [line]), Deletion) ==
      Count(Reverse(raw), Deletion) + if line.kind == Deletion then 1 else 0
  {
    ReverseSnoc(raw, line);
    assert head + [line] + Reverse(raw) == head + ([line] + Reverse(raw));
    CountsAppend([line], Reverse(raw));
  }

  /** The last line of the script between the prefixes that are left to walk. */
  method LastLine(x: seq<string>, y: seq<string>, dp: array<int32>, i: nat, j: nat)
    returns (line: DiffLine, i': nat, j': nat)
    requires Filled(dp[..], x, y, |x|, 0)
    requires i <= |x| && j <= |y| && (i > 0 || j > 0)
    ensures i' <= i && j' <= j && i' + j' < i + j
    ensures Backtrack(x[..i], y[..j]) == Backtrack(x[..i'], y[..j']) + [line]
  {
    var rows, stride := |x| + 1, |y| + 1;
    BacktrackStep(x, y, i, j);
    if i > 0 && j > 0 {
      assert dp[..][Cell(rows, stride, i, j - 1)] as int == Lcs(x[..i], y[..j - 1]);
      assert dp[..][Cell(rows, stride, i - 1, j)] as int == Lcs(x[..i - 1], y[..j]);
    }
    if i > 0 && j > 0 && x[i - 1] == y[j - 1] {
      return DiffLine(Context, x[i - 1]), i - 1, j - 1;
    } else if j > 0 && (i == 0 || dp[Cell(rows, stride, i, j - 1)] >= dp[Cell(rows, stride, i - 1, j)]) {
      return DiffLine(Addition, y[j - 1]), i, j - 1;
    } else {
      // The remaining guard of the source: it always holds here, so the walk never stalls.
      assert i > 0 && (j == 0 || dp[Cell(rows, stride, i, j - 1)] < dp[Cell(rows, stride, i - 1, j)]);
      return DiffLine(Deletion, x[i - 1]), i - 1, j;
    }
  }

  /** Walks the filled table from its last cell, pushing script lines back to front. */
  method AssembleScript(x: seq<string>, y: seq<string>) returns (lines: Script, additions: nat, deletions: nat)
    requires x != [] && y != [] && |x| * |y| <= MAX_LCS_MATRIX_CELLS
    ensures lines == Backtrack(x, y)
    ensures additions == Count(lines, Addition) && deletions == Count(lines, Deletion)
  {
    assert |x| <= |x| * |y|;
    var dp := FillTable(x, y);
    var rawScript: Script := [];
    var i: nat, j: nat := |x|, |y|;
    additions, deletions := 0, 0;
    ghost var whole := Backtrack(x, y);
    assert x[..i] == x && y[..j] == y && whole == whole + Reverse(rawScript);
    while i > 0 || j > 0
      invariant i <= |x| && j <= |y| && Filled(dp[..], x, y, |x|, 0)
      invariant whole == Backtrack(x[..i], y[..j]) + Reverse(rawScript)
      invariant additions == Count(Reverse(rawScript), Addition)
      invariant deletions == Count(Reverse(rawScript), Deletion)
      decreases i + j
    {
      var line;
      line, i, j := LastLine(x, y, dp, i, j);
      PushLine(whole, Backtrack(x[..i], y[..j]), line, rawScript);
      rawScript := rawScript + [line];
      if line.kind == Addition {
        additions := additions + 1;
      } else if line.kind == Deletion {
        deletions := deletions + 1;
      }
    }
    lines := Reverse(rawScript);
    assert whole == [] + lines;
  }
}
