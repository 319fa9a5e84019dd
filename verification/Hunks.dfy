/**
 Cutting an edit script into hunks. A span records which slice of the script a hunk shows and where
 its first and last changes are; `Hunking` says, for a context width, exactly which spans are right.
 */
module Hunks {
  import opened Wrappers
  import opened EditScript

  datatype Hunk = Hunk(oldStart: nat, oldCount: nat, newStart: nat, newCount: nat, lines: Script)

  datatype Span = Span(start: nat, first: nat, last: nat, end: nat)

  predicate IsChange(edit: Script, i: int) {
    0 <= i < |edit| && edit[i].kind != Context
  }

  /** No change between positions `from` (included) and `to` (excluded). */
  ghost predicate Quiet(edit: Script, from: int, to: int) {
    forall i :: from <= i < to ==> !IsChange(edit, i)
  }

  /** Leading context kept before a hunk's first change; negative widths act as zero. */
  function Lead(contextLines: int): nat {
    if contextLines < 0 then 0 else contextLines
  }

  /** Trailing context kept after a hunk's last change: even at width zero one line is kept. */
  function Trail(contextLines: int): nat {
    if contextLines < 1 then 1 else contextLines
  }

  /** Changes separated by at least this many context lines fall in different hunks. */
  function Gap(contextLines: int): nat {
    if contextLines < 1 then 1 else 3 * contextLines
  }

  /** The hunk a slice of the script stands for, numbered from one on both sides. */
  function HunkAt(edit: Script, start: nat, end: nat): Hunk
    requires start <= end <= |edit|
  {
    var slice := edit[start..end];
    Hunk(|OldSide(edit[..start])| + 1, |OldSide(slice)|, |NewSide(edit[..start])| + 1, |NewSide(slice)|, slice)
  }

  /** One span: exact leading and trailing context around changes that stay close together. */
  ghost predicate GoodSpan(edit: Script, contextLines: int, s: Span) {
    && s.start <= s.first <= s.last < s.end <= |edit|
    && IsChange(edit, s.first) && IsChange(edit, s.last)
    && Quiet(edit, s.start, s.first) && Quiet(edit, s.last + 1, s.end)
    && s.start == (if s.first < Lead(contextLines) then 0 else s.first - Lead(contextLines))
    && s.end == (if |edit| < s.last + 1 + Trail(contextLines) then |edit| else s.last + 1 + Trail(contextLines))
    && Joined(edit, contextLines, s.first, s.last)
  }

  /** Positions of two changes with only context between them. */
  ghost predicate Neighbours(edit: Script, p: int, q: int) {
    p < q && IsChange(edit, p) && IsChange(edit, q) && Quiet(edit, p + 1, q)
  }

  /** From one change to the next between two positions there is less than a gap. */
  ghost predicate Joined(edit: Script, contextLines: int, first: nat, last: nat) {
    forall p, q :: first <= p && q <= last && Neighbours(edit, p, q) ==> q - p - 1 < Gap(contextLines)
  }

  /** Two successive spans: in order, disjoint, with no change between them and a gap of context. */
  ghost predicate Apart(edit: Script, contextLines: int, s: Span, t: Span) {
    s.end <= t.start && Quiet(edit, s.end, t.start) && t.first - s.last - 1 >= Gap(contextLines)
  }

  /** Spans in order, disjoint, a gap apart, with every change before `upTo` in one of them. */
  ghost predicate Spaced(edit: Script, contextLines: int, spans: seq<Span>) {
    && (forall k :: 0 <= k < |spans| ==> GoodSpan(edit, contextLines, spans[k]))
    && (forall k :: 0 < k < |spans| ==> Apart(edit, contextLines, spans[k - 1], spans[k]))
    && (spans != [] ==> Quiet(edit, 0, spans[0].start))
  }

  function EndOf(spans: seq<Span>): nat {
    if spans == [] then 0 else spans[|spans| - 1].end
  }

  /** The right way to cut a script into spans: spaced, and no change is left out. */
  ghost predicate Hunking(edit: Script, contextLines: int, spans: seq<Span>) {
    Spaced(edit, contextLines, spans) && Quiet(edit, EndOf(spans), |edit|)
  }

  /** The hunks are the slices the spans name. */
  ghost predicate HunksOf(edit: Script, spans: seq<Span>, hunks: seq<Hunk>) {
    |hunks| == |spans| &&
    forall k :: 0 <= k < |spans| ==>
      spans[k].start <= spans[k].end <= |edit| && hunks[k] == HunkAt(edit, spans[k].start, spans[k].end)
  }

  /** The hunks of the right cut of a script at a width. */
  ghost predicate IsRightCut(edit: Script, contextLines: int, hunks: seq<Hunk>) {
    exists spans :: Hunking(edit, contextLines, spans) && HunksOf(edit, spans, hunks)
  }

  // ----- Consequences of a right cut -----

  /** Spans are ordered by position, not only neighbour by neighbour. */
  lemma {:induction false} SpansOrdered(edit: Script, contextLines: int, spans: seq<Span>, k: nat, l: nat)
    requires Spaced(edit, contextLines, spans) && k < l < |spans|
    ensures spans[k].end <= spans[l].start
  {
    if k + 1 < l {
      SpansOrdered(edit, contextLines, spans, k, l - 1);
    }
  }

  /** Every change is shown, in exactly one hunk. */
  lemma {:induction false} ChangeHasSpan(edit: Script, contextLines: int, spans: seq<Span>, p: nat) returns (k: nat)
    requires Hunking(edit, contextLines, spans) && IsChange(edit, p)
    ensures k < |spans| && spans[k].first <= p <= spans[k].last
    ensures forall l :: 0 <= l < |spans| && spans[l].start <= p < spans[l].end ==> l == k
  {
    assert p < EndOf(spans);
    k := SpanFor(edit, contextLines, spans, p, |spans|);
    forall l | 0 <= l < |spans| && spans[l].start <= p < spans[l].end
      ensures l == k
    {
      if l < k { SpansOrdered(edit, contextLines, spans, l, k); }
      if k < l { SpansOrdered(edit, contextLines, spans, k, l); }
    }
  }

  lemma {:induction false} SpanFor(edit: Script, contextLines: int, spans: seq<Span>, p: nat, n: nat)
    returns (k: nat)
    requires Spaced(edit, contextLines, spans) && IsChange(edit, p)
    requires 0 < n <= |spans| && p < spans[n - 1].end
    ensures k < n && spans[k].first <= p <= spans[k].last
  {
    var s := spans[n - 1];
    assert GoodSpan(edit, contextLines, s);
    if s.start <= p {
      k := n - 1;
    } else {
      assert Quiet(edit, if n == 1 then 0 else spans[n - 2].end, s.start);
      assert n > 1 && p < spans[n - 2].end;
      k := SpanFor(edit, contextLines, spans, p, n - 1);
    }
  }

  /** Neighbouring changes share a hunk exactly when less than a gap of context separates them. */
  lemma ShareHunkExactlyWhen(edit: Script, contextLines: int, spans: seq<Span>, p: nat, q: nat)
    requires Hunking(edit, contextLines, spans)
    requires Neighbours(edit, p, q)
    ensures (exists k :: 0 <= k < |spans| && spans[k].start <= p && q < spans[k].end)
       <==> q - p - 1 < Gap(contextLines)
  {
    var k := ChangeHasSpan(edit, contextLines, spans, p);
    var l := ChangeHasSpan(edit, contextLines, spans, q);
    if k == l {
      assert Joined(edit, contextLines, spans[k].first, spans[k].last);
    } else {
      if l < k { SpansOrdered(edit, contextLines, spans, l, k); }
      assert k < l;
      assert spans[k].last == p by {
        if p < spans[k].last { SpansOrdered(edit, contextLines, spans, k, l); }
      }
      if k + 1 < l {
        SpansOrdered(edit, contextLines, spans, k, k + 1);
        SpansOrdered(edit, contextLines, spans, k + 1, l);
        assert false;
      }
      assert l == k + 1 && spans[l].first == q;
    }
  }

  lemma {:induction false} FirstChange(edit: Script, lo: nat, hi: nat) returns (q: nat)
    requires lo <= hi && IsChange(edit, hi)
    ensures lo <= q <= hi && IsChange(edit, q) && Quiet(edit, lo, q)
    decreases hi - lo
  {
    if IsChange(edit, lo) {
      q := lo;
    } else {
      q := FirstChange(edit, lo + 1, hi);
    }
  }

  /** The change that follows a span's last one is a gap away. */
  lemma NextIsFar(edit: Script, contextLines: int, spans: seq<Span>, n: nat, q: nat)
    requires Hunking(edit, contextLines, spans) && n < |spans|
    requires Neighbours(edit, spans[n].last, q)
    ensures q - spans[n].last - 1 >= Gap(contextLines)
  {
    var k := ChangeHasSpan(edit, contextLines, spans, q);
    if k < n {
      SpansOrdered(edit, contextLines, spans, k, n);
      assert false;
    } else if n + 1 < k {
      SpansOrdered(edit, contextLines, spans, n, n + 1);
      SpansOrdered(edit, contextLines, spans, n + 1, k);
      assert false;
    } else if k == n + 1 {
      SpansOrdered(edit, contextLines, spans, n, k);
      assert spans[k].first == q;
    }
  }

  lemma LastNotBefore(edit: Script, contextLines: int, a: seq<Span>, b: seq<Span>, n: nat)
    requires Hunking(edit, contextLines, a) && Hunking(edit, contextLines, b)
    requires n < |a| && n < |b| && a[n].first == b[n].first
    ensures b[n].last <= a[n].last
  {
    if a[n].last < b[n].last {
      var q := FirstChange(edit, a[n].last + 1, b[n].last);
      assert Neighbours(edit, a[n].last, q);
      NextIsFar(edit, contextLines, a, n, q);
      assert false;
    }
  }

  /** After equal spans, both cuts have a next one, and neither starts its changes later. */
  lemma FirstNotBefore(edit: Script, contextLines: int, a: seq<Span>, b: seq<Span>, n: nat)
    requires Hunking(edit, contextLines, a) && Hunking(edit, contextLines, b)
    requires n < |a| && n <= |b| && (n > 0 ==> a[n - 1] == b[n - 1])
    ensures n < |b| && b[n].first <= a[n].first
  {
    hide Hunking;
    QuietBeforeFirst(edit, contextLines, b, n);
    FirstAfter(edit, contextLines, a, n);
    assert IsChange(edit, a[n].first);
  }

  /** No change between the end of one span and the first change of the next. */
  lemma QuietBeforeFirst(edit: Script, contextLines: int, spans: seq<Span>, n: nat)
    requires Hunking(edit, contextLines, spans) && n <= |spans|
    ensures Quiet(edit, if n == 0 then 0 else spans[n - 1].end, if n < |spans| then spans[n].first else |edit|)
  {
    hide Joined;
    assert n < |spans| ==> GoodSpan(edit, contextLines, spans[n]);
    assert 0 < n < |spans| ==> Apart(edit, contextLines, spans[n - 1], spans[n]);
  }

  lemma FirstAfter(edit: Script, contextLines: int, spans: seq<Span>, n: nat)
    requires Hunking(edit, contextLines, spans) && n < |spans|
    ensures IsChange(edit, spans[n].first) && (n > 0 ==> spans[n - 1].end <= spans[n].first)
  {
    hide Joined, Quiet;
    assert GoodSpan(edit, contextLines, spans[n]);
    assert n > 0 ==> Apart(edit, contextLines, spans[n - 1], spans[n]);
  }

  lemma SameSpan(edit: Script, contextLines: int, s: Span, t: Span)
    requires GoodSpan(edit, contextLines, s) && GoodSpan(edit, contextLines, t)
    requires s.first == t.first && s.last == t.last
    ensures s == t
  {
  }

  lemma {:induction false} SameAt(edit: Script, contextLines: int, a: seq<Span>, b: seq<Span>, n: nat)
    requires Hunking(edit, contextLines, a) && Hunking(edit, contextLines, b) && n < |a|
    ensures n < |b| && a[n] == b[n]
  {
    if n > 0 {
      SameAt(edit, contextLines, a, b, n - 1);
    }
    FirstNotBefore(edit, contextLines, a, b, n);
    FirstNotBefore(edit, contextLines, b, a, n);
    LastNotBefore(edit, contextLines, a, b, n);
    LastNotBefore(edit, contextLines, b, a, n);
    SameSpan(edit, contextLines, a[n], b[n]);
  }

  /** There is only one right cut: a script and a width determine the hunks. */
  lemma HunkingUnique(edit: Script, contextLines: int, a: seq<Span>, b: seq<Span>)
    requires Hunking(edit, contextLines, a) && Hunking(edit, contextLines, b)
    ensures a == b
  {
    if |b| > 0 {
      SameAt(edit, contextLines, b, a, |b| - 1);
    }
    forall n | 0 <= n < |a|
      ensures n < |b| && a[n] == b[n]
    {
      SameAt(edit, contextLines, a, b, n);
    }
  }

  /** So the hunks themselves are determined. */
  lemma RightCutUnique(edit: Script, contextLines: int, a: seq<Hunk>, b: seq<Hunk>)
    requires IsRightCut(edit, contextLines, a) && IsRightCut(edit, contextLines, b)
    ensures a == b
  {
    hide Hunking;
    var s :| Hunking(edit, contextLines, s) && HunksOf(edit, s, a);
    var t :| Hunking(edit, contextLines, t) && HunksOf(edit, t, b);
    HunkingUnique(edit, contextLines, s, t);
  }

  // ----- Building the hunks -----

  /** Distance from `idx` to the next change within twice the context width, or -1. */
  method NextChangeDistance(edit: Script, idx: nat, contextLines: int) returns (distance: int)
    requires idx < |edit|
    ensures distance == -1 <==> Quiet(edit, idx + 1, idx + contextLines * 2 + 1)
    ensures distance != -1 ==> 1 <= distance <= contextLines * 2 && IsChange(edit, idx + distance)
  {
    distance := -1;
    var next := idx + 1;
    while next < |edit| && next < idx + contextLines * 2 + 1
      invariant idx + 1 <= next && Quiet(edit, idx + 1, next)
      decreases |edit| - next
    {
      if edit[next].kind != Context {
        assert IsChange(edit, next);
        return next - idx;
      }
      next := next + 1;
    }
  }

  /** The lines from `from` up to `to`; none when the bounds cross. */
  method CopyLines(edit: Script, from: nat, to: nat) returns (lines: Script)
    requires to <= |edit|
    ensures lines == if from < to then edit[from..to] else []
  {
    lines := [];
    var c := from;
    while c < to
      invariant from < to ==> c <= to && lines == edit[from..c]
      invariant from >= to ==> c == from && lines == []
    {
      lines := lines + [edit[c]];
      c := c + 1;
    }
  }

  /** After the last closed span nothing changes for a whole gap. */
  ghost predicate GapAhead(edit: Script, contextLines: int, spans: seq<Span>) {
    spans != [] ==>
      var l := spans[|spans| - 1].last;
      Quiet(edit, l + 1, l + 1 + Gap(contextLines))
  }

  /** Between hunks: every change before `idx` is in a closed span. */
  ghost predicate Idle(edit: Script, contextLines: int, spans: seq<Span>, idx: nat) {
    && Spaced(edit, contextLines, spans) && GapAhead(edit, contextLines, spans)
    && EndOf(spans) <= idx <= |edit| && Quiet(edit, EndOf(spans), idx)
  }

  /** Inside a hunk that has reached `idx`; `s` is its span so far, with the end still open. */
  ghost predicate Open(edit: Script, contextLines: int, spans: seq<Span>, s: Span, idx: nat) {
    && Spaced(edit, contextLines, spans)
    && s.start <= s.first <= s.last < idx <= |edit|
    && IsChange(edit, s.first) && IsChange(edit, s.last)
    && Quiet(edit, s.start, s.first) && Quiet(edit, s.last + 1, idx)
    && s.start == (if s.first < Lead(contextLines) then 0 else s.first - Lead(contextLines))
    && Joined(edit, contextLines, s.first, s.last)
    && EndOf(spans) <= s.start && Quiet(edit, EndOf(spans), s.start)
    && (spans != [] ==> s.first - spans[|spans| - 1].last - 1 >= Gap(contextLines))
    && MayStayOpen(edit, contextLines, s, idx)
  }

  /** A hunk stays open after `idx - 1` only while its trailing context is short or a change is near. */
  ghost predicate MayStayOpen(edit: Script, contextLines: int, s: Span, idx: nat) {
    var trailing := idx - 1 - s.last;
    trailing <= 0 || trailing < contextLines || !Quiet(edit, idx, s.last + 3 * contextLines + 1)
  }

  lemma OpenAtChange(edit: Script, contextLines: int, spans: seq<Span>, idx: nat, start: nat)
    requires Idle(edit, contextLines, spans, idx) && IsChange(edit, idx)
    requires start == if idx < Lead(contextLines) then 0 else idx - Lead(contextLines)
    ensures Open(edit, contextLines, spans, Span(start, idx, idx, idx), idx + 1)
  {
    if spans != [] {
      var l := spans[|spans| - 1];
      assert GoodSpan(edit, contextLines, l);
      assert idx >= l.last + 1 + Gap(contextLines);
    }
  }

  lemma ChangeWhileOpen(edit: Script, contextLines: int, spans: seq<Span>, s: Span, idx: nat)
    requires Open(edit, contextLines, spans, s, idx) && IsChange(edit, idx)
    ensures Open(edit, contextLines, spans, s.(last := idx), idx + 1)
  {
    assert idx - s.last - 1 < Gap(contextLines);
    forall p, q | s.first <= p && q <= idx && Neighbours(edit, p, q)
      ensures q - p - 1 < Gap(contextLines)
    {
      assert p <= s.last;
      if q == idx {
        assert p == s.last;
      }
    }
  }

  lemma ContextWhileOpen(edit: Script, contextLines: int, spans: seq<Span>, s: Span, idx: nat)
    requires Open(edit, contextLines, spans, s, idx) && idx < |edit| && !IsChange(edit, idx)
    requires idx - s.last < contextLines || !Quiet(edit, idx + 1, idx + contextLines * 2 + 1)
    ensures Open(edit, contextLines, spans, s, idx + 1)
  {
  }

  lemma AppendSpan(edit: Script, contextLines: int, spans: seq<Span>, t: Span)
    requires Spaced(edit, contextLines, spans) && GoodSpan(edit, contextLines, t)
    requires EndOf(spans) <= t.start && Quiet(edit, EndOf(spans), t.start)
    requires spans != [] ==> t.first - spans[|spans| - 1].last - 1 >= Gap(contextLines)
    ensures Spaced(edit, contextLines, spans + [t])
  {
    hide GoodSpan, Joined, Quiet;
    var all := spans + [t];
    forall k | 0 < k < |all|
      ensures Apart(edit, contextLines, all[k - 1], all[k])
    {
      assert all[k - 1] == spans[k - 1];
      assert k < |spans| ==> all[k] == spans[k];
    }
  }

  /** A hunk that closes has exactly the trailing context its width asks for. */
  lemma CloseOpen(edit: Script, contextLines: int, spans: seq<Span>, s: Span, idx: nat)
    requires Open(edit, contextLines, spans, s, idx) && idx < |edit| && !IsChange(edit, idx)
    requires idx - s.last >= contextLines && Quiet(edit, idx + 1, idx + contextLines * 2 + 1)
    ensures Idle(edit, contextLines, spans + [s.(end := idx + 1)], idx + 1)
  {
    hide Spaced, Joined;
    assert idx - s.last == Trail(contextLines);
    var t := s.(end := idx + 1);
    assert GoodSpan(edit, contextLines, t);
    assert GapAhead(edit, contextLines, [t]);
    AppendSpan(edit, contextLines, spans, t);
    assert (spans + [t])[|spans|] == t;
  }

  /** The script may also end inside a hunk. */
  lemma CloseAtEnd(edit: Script, contextLines: int, spans: seq<Span>, s: Span)
    requires Open(edit, contextLines, spans, s, |edit|)
    ensures Hunking(edit, contextLines, spans + [s.(end := |edit|)])
  {
    hide Spaced, Joined;
    assert |edit| - 1 - s.last <= Trail(contextLines);
    var t := s.(end := |edit|);
    assert GoodSpan(edit, contextLines, t);
    AppendSpan(edit, contextLines, spans, t);
  }

  lemma PrefixStep(edit: Script, start: nat, idx: nat)
    requires start <= idx < |edit|
    ensures OldSide(edit[start..idx + 1]) == OldSide(edit[start..idx]) + OldPart(edit[idx])
    ensures NewSide(edit[start..idx + 1]) == NewSide(edit[start..idx]) + NewPart(edit[idx])
    ensures edit[start..idx + 1] == edit[start..idx] + [edit[idx]]
  {
    assert edit[start..idx + 1] == edit[start..idx] + [edit[idx]];
    Snoc(edit[start..idx], edit[idx]);
  }

  /** A hunk with one more line at its end. */
  function PushLine(h: Hunk, line: DiffLine): Hunk {
    h.(lines := h.lines + [line],
       oldCount := h.oldCount + (if line.kind == Addition then 0 else 1),
       newCount := h.newCount + (if line.kind == Deletion then 0 else 1))
  }

  /** Pushing the next line of the script on a slice's hunk gives the longer slice's hunk. */
  lemma ExtendHunk(edit: Script, start: nat, idx: nat)
    requires start <= idx < |edit|
    ensures HunkAt(edit, start, idx + 1) == PushLine(HunkAt(edit, start, idx), edit[idx])
  {
    PrefixStep(edit, start, idx);
  }

  /** Context lines before a position count equally on both sides. */
  lemma LeadingSides(edit: Script, start: nat, idx: nat)
    requires start <= idx <= |edit| && Quiet(edit, start, idx)
    ensures |OldSide(edit[start..idx])| == idx - start == |NewSide(edit[start..idx])|
    ensures |OldSide(edit[..idx])| == |OldSide(edit[..start])| + (idx - start)
    ensures |NewSide(edit[..idx])| == |NewSide(edit[..start])| + (idx - start)
  {
    var slice := edit[start..idx];
    forall i | 0 <= i < |slice|
      ensures slice[i].kind == Context
    {
      assert !IsChange(edit, start + i);
    }
    ContextOnly(slice);
    assert edit[..idx] == edit[..start] + slice;
    SidesAppend(edit[..start], slice);
  }

  /** What the builder knows before it looks at line `idx`. */
  ghost predicate State(edit: Script, contextLines: int, spans: seq<Span>, current: Option<Hunk>,
                        s: Span, trailing: int, idx: nat)
  {
    match current
    case None => Idle(edit, contextLines, spans, idx)
    case Some(h) =>
      Open(edit, contextLines, spans, s, idx) && h == HunkAt(edit, s.start, idx) && trailing == idx - 1 - s.last
  }

  /** Opens a hunk at a change, taking up to the context width of lines before it. */
  method StartHunk(edit: Script, contextLines: int, idx: nat, oldLineNum: nat, newLineNum: nat, ghost spans: seq<Span>)
    returns (h: Hunk, ghost s: Span)
    requires Idle(edit, contextLines, spans, idx) && IsChange(edit, idx)
    requires Numbers(edit, idx, oldLineNum, newLineNum)
    ensures Open(edit, contextLines, spans, s, idx + 1) && s.last == idx
    ensures s.start <= idx && h == HunkAt(edit, s.start, idx)
  {
    hide Spaced, GoodSpan, Quiet, Joined, GapAhead, MayStayOpen;
    var contextStart: nat := if idx - contextLines < 0 then 0 else idx - contextLines;
    var leadingLines := CopyLines(edit, contextStart, idx);
    ghost var start: nat := if idx < Lead(contextLines) then 0 else idx - Lead(contextLines);
    OpenAtChange(edit, contextLines, spans, idx, start);
    s := Span(start, idx, idx, idx);
    LeadingSides(edit, start, idx);
    assert leadingLines == edit[start..idx];
    var hunkOldStart: int := oldLineNum - |leadingLines|;
    var hunkNewStart: int := newLineNum - |leadingLines|;
    h := Hunk(if hunkOldStart < 1 then 1 else hunkOldStart, |leadingLines|,
              if hunkNewStart < 1 then 1 else hunkNewStart, |leadingLines|, leadingLines);
  }

  /** A change extends the current hunk, opening one first if none is open. */
  method TakeChange(edit: Script, contextLines: int, idx: nat, oldLineNum: nat, newLineNum: nat,
                    current: Option<Hunk>, trailing: int, ghost spans: seq<Span>, ghost s0: Span)
    returns (h: Hunk, ghost s: Span)
    requires State(edit, contextLines, spans, current, s0, trailing, idx) && IsChange(edit, idx)
    requires Numbers(edit, idx, oldLineNum, newLineNum)
    ensures State(edit, contextLines, spans, Some(h), s, 0, idx + 1)
  {
    if current.None? {
      h, s := StartHunk(edit, contextLines, idx, oldLineNum, newLineNum, spans);
    } else {
      ChangeWhileOpen(edit, contextLines, spans, s0, idx);
      h, s := current.value, s0.(last := idx);
    }
    ExtendHunk(edit, s.start, idx);
    var line := edit[idx];
    h := h.(lines := h.lines + [line]);
    if line.kind == Deletion { h := h.(oldCount := h.oldCount + 1); }
    if line.kind == Addition { h := h.(newCount := h.newCount + 1); }
  }

  /** A context line extends an open hunk, and closes it when enough of them follow its last change. */
  method TakeContext(edit: Script, contextLines: int, idx: nat, h0: Hunk, trailing0: int,
                     ghost spans: seq<Span>, ghost s: Span)
    returns (h: Hunk, closes: bool, trailing: int)
    requires State(edit, contextLines, spans, Some(h0), s, trailing0, idx)
    requires idx < |edit| && edit[idx].kind == Context
    ensures h == HunkAt(edit, s.start, idx + 1)
    ensures closes ==> State(edit, contextLines, spans + [s.(end := idx + 1)], None, s, trailing, idx + 1)
    ensures !closes ==> State(edit, contextLines, spans, Some(h), s, trailing, idx + 1)
  {
    hide Spaced, GoodSpan, Joined, GapAhead;
    ExtendHunk(edit, s.start, idx);
    trailing := trailing0 + 1;
    h := h0.(lines := h0.lines + [edit[idx]], oldCount := h0.oldCount + 1, newCount := h0.newCount + 1);
    var nextChangeDistance := NextChangeDistance(edit, idx, contextLines);
    closes := trailing >= contextLines && nextChangeDistance == -1;
    if closes {
      CloseOpen(edit, contextLines, spans, s, idx);
      trailing := 0;
    } else {
      ContextWhileOpen(edit, contextLines, spans, s, idx);
    }
  }

  /** A context line outside every hunk is passed over. */
  lemma PassContext(edit: Script, contextLines: int, spans: seq<Span>, s: Span, trailing: int, idx: nat)
    requires State(edit, contextLines, spans, None, s, trailing, idx)
    requires idx < |edit| && edit[idx].kind == Context
    ensures State(edit, contextLines, spans, None, s, trailing, idx + 1)
  {
  }

  /** The line numbers the builder keeps: one more than the lines read on each side. */
  ghost predicate Numbers(edit: Script, idx: nat, oldLineNum: nat, newLineNum: nat)
  {
    idx <= |edit| && oldLineNum == |OldSide(edit[..idx])| + 1 && newLineNum == |NewSide(edit[..idx])| + 1
  }

  lemma NextNumbers(edit: Script, idx: nat, oldLineNum: nat, newLineNum: nat)
    requires idx < |edit| && Numbers(edit, idx, oldLineNum, newLineNum)
    ensures Numbers(edit, idx + 1, oldLineNum + (if edit[idx].kind == Addition then 0 else 1),
                    newLineNum + (if edit[idx].kind == Deletion then 0 else 1))
  {
    assert edit[0..idx] == edit[..idx] && edit[0..idx + 1] == edit[..idx + 1];
    PrefixStep(edit, 0, idx);
  }

  lemma HunksOfSnoc(edit: Script, spans: seq<Span>, hunks: seq<Hunk>, t: Span)
    requires HunksOf(edit, spans, hunks) && t.start <= t.end <= |edit|
    ensures HunksOf(edit, spans + [t], hunks + [HunkAt(edit, t.start, t.end)])
  {
    forall k | 0 <= k < |spans| + 1
      ensures var u := (spans + [t])[k];
        u.start <= u.end <= |edit| &&
        (hunks + [HunkAt(edit, t.start, t.end)])[k] == HunkAt(edit, u.start, u.end)
    {
    }
  }

  /** Everything the loop keeps: line numbers, the hunks already cut, and the one being cut. */
  ghost predicate Invariant(edit: Script, contextLines: int, b: Builder, spans: seq<Span>, s: Span, idx: nat)
  {
    && Numbers(edit, idx, b.oldLineNum, b.newLineNum)
    && HunksOf(edit, spans, b.hunks)
    && State(edit, contextLines, spans, b.current, s, b.trailing, idx)
  }

  /** The local variables of the builder. */
  datatype Builder = Builder(hunks: seq<Hunk>, oldLineNum: nat, newLineNum: nat, current: Option<Hunk>, trailing: int)

  /** What one line does to the hunks. */
  method Absorb(edit: Script, contextLines: int, idx: nat, b: Builder, ghost spans0: seq<Span>, ghost s0: Span)
    returns (b': Builder, ghost spans: seq<Span>, ghost s: Span)
    requires Invariant(edit, contextLines, b, spans0, s0, idx) && idx < |edit|
    ensures b'.oldLineNum == b.oldLineNum && b'.newLineNum == b.newLineNum
    ensures HunksOf(edit, spans, b'.hunks)
    ensures State(edit, contextLines, spans, b'.current, s, b'.trailing, idx + 1)
  {
    hide Spaced, GoodSpan, Quiet, Joined, GapAhead, MayStayOpen, HunkAt;
    if edit[idx].kind != Context {
      var h;
      h, s := TakeChange(edit, contextLines, idx, b.oldLineNum, b.newLineNum, b.current, b.trailing, spans0, s0);
      b', spans := b.(current := Some(h), trailing := 0), spans0;
    } else if b.current.Some? {
      var h, closes, trailing := TakeContext(edit, contextLines, idx, b.current.value, b.trailing, spans0, s0);
      s := s0;
      if closes {
        ghost var t := s.(end := idx + 1);
        assert t.start <= t.end && h == HunkAt(edit, t.start, t.end);
        HunksOfSnoc(edit, spans0, b.hunks, t);
        spans := spans0 + [t];
        b' := b.(hunks := b.hunks + [h], current := None, trailing := trailing);
      } else {
        b', spans := b.(current := Some(h), trailing := trailing), spans0;
      }
    } else {
      PassContext(edit, contextLines, spans0, s0, b.trailing, idx);
      b', spans, s := b, spans0, s0;
    }
  }

  /** One turn of the builder's loop. */
  method Step(edit: Script, contextLines: int, idx: nat, b: Builder, ghost spans0: seq<Span>, ghost s0: Span)
    returns (b': Builder, ghost spans: seq<Span>, ghost s: Span)
    requires Invariant(edit, contextLines, b, spans0, s0, idx) && idx < |edit|
    ensures Invariant(edit, contextLines, b', spans, s, idx + 1)
  {
    hide State, HunksOf;
    var line := edit[idx];
    NextNumbers(edit, idx, b.oldLineNum, b.newLineNum);
    b', spans, s := Absorb(edit, contextLines, idx, b, spans0, s0);
    if line.kind == Context || line.kind == Deletion { b' := b'.(oldLineNum := b'.oldLineNum + 1); }
    if line.kind == Context || line.kind == Addition { b' := b'.(newLineNum := b'.newLineNum + 1); }
  }

  /** Cuts an edit script into hunks around its changes. */
  method BuildUnifiedHunks(editLines: Script, contextLines: int) returns (hunks: seq<Hunk>, ghost spans: seq<Span>)
    ensures Hunking(editLines, contextLines, spans)
    ensures HunksOf(editLines, spans, hunks)
    ensures IsRightCut(editLines, contextLines, hunks)
  {
    spans := [];
    if !exists i :: 0 <= i < |editLines| && editLines[i].kind != Context {
      return [], [];
    }
    var b := Builder([], 1, 1, None, 0);
    ghost var s := Span(0, 0, 0, 0);
    for idx := 0 to |editLines|
      invariant Invariant(editLines, contextLines, b, spans, s, idx)
    {
      b, spans, s := Step(editLines, contextLines, idx, b, spans, s);
    }
    hunks := b.hunks;
    if b.current.Some? {
      CloseAtEnd(editLines, contextLines, spans, s);
      HunksOfSnoc(editLines, spans, hunks, s.(end := |editLines|));
      hunks, spans := hunks + [b.current.value], spans + [s.(end := |editLines|)];
    }
  }
}
