/**
 Replacing every occurrence of a token in a text by a fixed mark, left to right: which tokens can
 still be found afterwards.
 */
module Replacement {

  const MARK: string := "[REDACTED]"

  predicate OccursAt(text: string, token: string, i: int) {
    0 <= i <= |text| - |token| && text[i..i + |token|] == token
  }

  predicate Contains(text: string, token: string) {
    exists i :: 0 <= i <= |text| && OccursAt(text, token, i)
  }

  /** Every occurrence replaced, the leftmost first; an empty token occurs between any two characters. */
  function Replace(text: string, token: string, mark: string): string
    decreases |text|
  {
    if token == "" then
      if text == "" then mark else mark + [text[0]] + Replace(text[1..], token, mark)
    else if |text| < |token| then text
    else if text[..|token|] == token then mark + Replace(text[|token|..], token, mark)
    else [text[0]] + Replace(text[1..], token, mark)
  }

  function Redact(text: string, token: string): string {
    if Contains(text, token) then Replace(text, token, MARK) else text
  }

  /** One of two strings starts with the other. */
  predicate Comparable(a: string, b: string) {
    if |a| <= |b| then b[..|a|] == a else a[..|b|] == b
  }

  /** A token that could start inside a mark: the mark's rest and the token agree as far as both go. */
  predicate StartsInMark(token: string, mark: string) {
    exists a :: 0 <= a < |mark| && Comparable(mark[a..], token)
  }

  predicate FirstAt(text: string, token: string, n: nat) {
    OccursAt(text, token, n) && forall i :: 0 <= i < n ==> !OccursAt(text, token, i)
  }

  /** A token that could run into a mark from text before it, where that text is not itself replaced. */
  predicate RunsIntoMark(token: string, mark: string) {
    exists n :: 1 <= n < |token| && RunsIntoMarkAt(token, mark, n)
  }

  predicate RunsIntoMarkAt(token: string, mark: string, n: int)
    requires 1 <= n < |token|
  {
    Comparable(mark, token[n..]) && FirstAt(token[..n] + token, token, n)
  }

  /** What one checks of a token alone to know that no text can leak it. */
  predicate Leakproof(token: string, mark: string) {
    token != "" && !StartsInMark(token, mark) && !RunsIntoMark(token, mark)
  }

  /** No text contains the token after replacement. */
  ghost predicate AlwaysGone(token: string, mark: string) {
    forall text :: !Contains(Replace(text, token, mark), token)
  }

  // ----- Where the first replacement happens -----

  lemma FirstOccurrence(text: string, token: string) returns (n: nat)
    requires Contains(text, token)
    ensures FirstAt(text, token, n)
  {
    n := 0;
    while !OccursAt(text, token, n)
      invariant n <= |text|
      invariant forall i :: 0 <= i < n ==> !OccursAt(text, token, i)
      invariant exists i :: n <= i <= |text| && OccursAt(text, token, i)
      decreases |text| - n
    {
      n := n + 1;
    }
  }

  /** Occurrences behind a prefix are those of the rest. */
  lemma OccursBehind(prefix: string, rest: string, token: string, i: int)
    requires i >= 0
    ensures OccursAt(prefix + rest, token, |prefix| + i) <==> OccursAt(rest, token, i)
  {
    if 0 <= i <= |rest| - |token| {
      assert (prefix + rest)[|prefix| + i..|prefix| + i + |token|] == rest[i..i + |token|];
    }
  }

  lemma OccursInTail(text: string, token: string, i: int)
    requires text != "" && i >= 0
    ensures OccursAt(text[1..], token, i) <==> OccursAt(text, token, i + 1)
  {
    assert text == text[..1] + text[1..];
    OccursBehind(text[..1], text[1..], token, i);
  }

  lemma {:induction false} ReplaceFirst(text: string, token: string, mark: string, n: nat)
    requires token != "" && FirstAt(text, token, n)
    ensures Replace(text, token, mark) == text[..n] + mark + Replace(text[n + |token|..], token, mark)
    decreases n
  {
    hide Replace;
    if n > 0 {
      var rest := text[1..];
      forall i | 0 <= i < n
        ensures OccursAt(rest, token, i) <==> OccursAt(text, token, i + 1)
      {
        OccursInTail(text, token, i);
      }
      ReplaceFirst(rest, token, mark, n - 1);
      ReplaceStep(text, token, mark);
      assert rest[n - 1 + |token|..] == text[n + |token|..];
      PrependCut(text, mark, Replace(text[n + |token|..], token, mark), n);
    } else {
      ReplaceAtStart(text, token, mark);
      assert text[..0] + mark == mark;
    }
  }

  lemma PrependCut(text: string, mark: string, after: string, n: nat)
    requires 1 <= n <= |text|
    ensures [text[0]] + (text[1..][..n - 1] + mark + after) == text[..n] + mark + after
  {
    assert [text[0]] + text[1..][..n - 1] == text[..n];
  }

  lemma ReplaceAtStart(text: string, token: string, mark: string)
    requires token != "" && OccursAt(text, token, 0)
    ensures Replace(text, token, mark) == mark + Replace(text[|token|..], token, mark)
  {
  }

  lemma ReplaceStep(text: string, token: string, mark: string)
    requires token != "" && |token| <= |text| && !OccursAt(text, token, 0)
    ensures Replace(text, token, mark) == [text[0]] + Replace(text[1..], token, mark)
  {
  }

  lemma {:induction false} ReplaceNothing(text: string, token: string, mark: string)
    requires token != "" && !Contains(text, token)
    ensures Replace(text, token, mark) == text
    decreases |text|
  {
    if |text| >= |token| {
      assert !OccursAt(text, token, 0);
      var rest := text[1..];
      forall i | 0 <= i <= |rest|
        ensures !OccursAt(rest, token, i)
      {
        OccursInTail(text, token, i);
      }
      ReplaceNothing(rest, token, mark);
    }
  }

  lemma RedactReplaces(text: string, token: string)
    ensures Redact(text, token) == Replace(text, token, MARK)
  {
    if token == "" {
      assert OccursAt(text, token, 0);
    } else if !Contains(text, token) {
      ReplaceNothing(text, token, MARK);
    }
  }

  // ----- A leakproof token is always gone -----

  lemma PrefixesComparable(text: string, a: string, b: string)
    requires |a| <= |text| && text[..|a|] == a && |b| <= |text| && text[..|b|] == b
    ensures Comparable(a, b)
  {
    if |a| <= |b| {
      assert b[..|a|] == text[..|b|][..|a|] == text[..|a|];
    } else {
      assert a[..|b|] == text[..|a|][..|b|] == text[..|b|];
    }
  }

  /** Nothing starts inside a mark put in front of a text. */
  lemma NotInMark(rest: string, token: string, mark: string)
    requires token != "" && !StartsInMark(token, mark) && !Contains(rest, token)
    ensures !Contains(mark + rest, token)
  {
    var text := mark + rest;
    forall p | 0 <= p <= |text|
      ensures !OccursAt(text, token, p)
    {
      if p >= |mark| {
        OccursBehind(mark, rest, token, p - |mark|);
      } else {
        InMark(mark, rest, token, p);
      }
    }
  }

  lemma InMark(mark: string, rest: string, token: string, p: nat)
    requires p < |mark|
    ensures OccursAt(mark + rest, token, p) ==> Comparable(mark[p..], token)
  {
    var text := mark + rest;
    if OccursAt(text, token, p) {
      var tail := text[p..];
      assert tail[..|token|] == text[p..p + |token|];
      assert tail[..|mark| - p] == mark[p..];
      PrefixesComparable(tail, mark[p..], token);
    }
  }

  /** If the output starts with the token although the text does not, the token runs into a mark. */
  lemma NotAtStart(text: string, token: string, mark: string)
    requires token != "" && !OccursAt(text, token, 0)
    ensures OccursAt(Replace(text, token, mark), token, 0) ==> RunsIntoMark(token, mark)
  {
    hide Replace;
    if Contains(text, token) {
      var n := FirstOccurrence(text, token);
      var after := Replace(text[n + |token|..], token, mark);
      if |token| <= n { assert (text[..n] + (mark + after))[..|token|] == text[..|token|]; }
      ReplaceFirst(text, token, mark, n);
      assert text[..n] + mark + after == text[..n] + (mark + after);
      if |token| > n { StartsBeforeMark(text, token, mark, after, n); }
    } else {
      ReplaceNothing(text, token, mark);
    }
  }

  lemma StartsBeforeMark(text: string, token: string, mark: string, after: string, n: nat)
    requires 1 <= n < |token| && FirstAt(text, token, n)
    ensures OccursAt(text[..n] + (mark + after), token, 0) ==> RunsIntoMark(token, mark)
  {
    if OccursAt(text[..n] + (mark + after), token, 0) { RunsIn(text, token, mark, after, n); }
  }

  /** The first occurrence is also the first one in the text up to and with it. */
  lemma FirstAtCut(text: string, token: string, n: nat)
    requires FirstAt(text, token, n)
    ensures text[..n + |token|] == text[..n] + token && FirstAt(text[..n] + token, token, n)
  {
    var both := text[..n] + token;
    assert text[n..n + |token|] == token;
    assert text[..n + |token|] == both;
    assert both[n..n + |token|] == token;
    forall i | 0 <= i < n
      ensures !OccursAt(both, token, i)
    {
      SliceOfPrefix(text, n + |token|, i, |token|);
      assert !OccursAt(text, token, i);
    }
  }

  lemma SliceOfPrefix(text: string, n: nat, i: nat, k: nat)
    requires i + k <= n <= |text|
    ensures text[..n][i..i + k] == text[i..i + k]
  {
  }

  lemma RunsIn(text: string, token: string, mark: string, after: string, n: nat)
    requires 1 <= n < |token| && FirstAt(text, token, n)
    requires OccursAt(text[..n] + (mark + after), token, 0)
    ensures RunsIntoMark(token, mark)
  {
    var output := text[..n] + (mark + after);
    var tail := mark + after;
    assert output[..|token|] == token;
    assert token[..n] == text[..n];
    assert output[n..|token|] == output[..|token|][n..];
    assert output[n..|token|] == tail[..|token| - n];
    assert tail[..|mark|] == mark;
    PrefixesComparable(tail, mark, token[n..]);
    FirstAtCut(text, token, n);
    assert RunsIntoMarkAt(token, mark, n);
  }

  lemma {:induction false} LeakproofIsGone(text: string, token: string, mark: string)
    requires Leakproof(token, mark)
    ensures !Contains(Replace(text, token, mark), token)
    decreases |text|
  {
    hide Leakproof, StartsInMark, RunsIntoMark;
    LeakproofParts(token, mark);
    if |text| < |token| {
    } else if text[..|token|] == token {
      LeakproofIsGone(text[|token|..], token, mark);
      NotInMark(Replace(text[|token|..], token, mark), token, mark);
    } else {
      var rest := Replace(text[1..], token, mark);
      LeakproofIsGone(text[1..], token, mark);
      var output := [text[0]] + rest;
      forall p | 0 <= p <= |output|
        ensures !OccursAt(output, token, p)
      {
        if p > 0 {
          OccursBehind([text[0]], rest, token, p - 1);
        } else {
          NotAtStart(text, token, mark);
        }
      }
    }
  }

  lemma LeakproofParts(token: string, mark: string)
    requires Leakproof(token, mark)
    ensures token != "" && !StartsInMark(token, mark) && !RunsIntoMark(token, mark)
  {
  }

  // ----- Any other token leaks -----

  lemma ShortUnchanged(text: string, token: string, mark: string)
    requires |text| < |token|
    ensures Replace(text, token, mark) == text
  {
  }

  /** A text that keeps the token: what follows the overlap stands behind the token. */
  lemma InMarkLeaks(token: string, mark: string)
    requires token != "" && StartsInMark(token, mark)
    ensures exists text :: Contains(Replace(text, token, mark), token)
  {
    var a :| 0 <= a < |mark| && Comparable(mark[a..], token);
    var k := |mark| - a;
    var w := if k < |token| then token[k..] else "";
    var text := token + w;
    assert text[..|token|] == token && text[|token|..] == w;
    ShortUnchanged(w, token, mark);
    var output := mark + w;
    assert Replace(text, token, mark) == output;
    assert output[a..] == mark[a..] + w;
    assert output[a..a + |token|] == token by {
      if k < |token| {
        assert token == mark[a..] + w;
      } else {
        assert output[a..a + |token|] == mark[a..][..|token|];
      }
    }
    assert OccursAt(output, token, a);
  }

  lemma RunningIntoMarkLeaks(token: string, mark: string)
    requires RunsIntoMark(token, mark)
    ensures exists text :: Contains(Replace(text, token, mark), token)
  {
    hide Replace;
    var n :| 1 <= n < |token| && RunsIntoMarkAt(token, mark, n);
    var w := if |mark| < |token| - n then token[n + |mark|..] else "";
    var text := token[..n] + token + w;
    FirstAtExtended(token[..n] + token, w, token, n);
    ReplaceFirst(text, token, mark, n);
    assert text[n + |token|..] == w && text[..n] == token[..n];
    ShortUnchanged(w, token, mark);
    var output := token[..n] + mark + w;
    assert Replace(text, token, mark) == output;
    StartsWithToken(token, mark, n, w);
    assert OccursAt(output, token, 0);
    assert Contains(output, token);
  }

  lemma FirstAtExtended(text: string, more: string, token: string, n: nat)
    requires FirstAt(text, token, n)
    ensures FirstAt(text + more, token, n)
  {
    forall i | 0 <= i <= n
      ensures OccursAt(text + more, token, i) <==> OccursAt(text, token, i)
    {
      assert (text + more)[i..i + |token|] == text[i..i + |token|];
    }
  }

  lemma StartsWithToken(token: string, mark: string, n: nat, w: string)
    requires 1 <= n < |token| && Comparable(mark, token[n..])
    requires w == if |mark| < |token| - n then token[n + |mark|..] else ""
    ensures |token[..n] + mark + w| >= |token| && (token[..n] + mark + w)[..|token|] == token
  {
    var output := token[..n] + mark + w;
    if |mark| < |token| - n {
      assert token == token[..n] + token[n..][..|mark|] + w;
    } else {
      assert output[n..|token|] == mark[..|token| - n] == token[n..];
      assert output[..|token|] == token[..n] + output[n..|token|];
    }
  }

  /** For every token: replacement removes it from all texts exactly when it is leakproof. */
  lemma GoneExactlyWhen(token: string, mark: string)
    ensures AlwaysGone(token, mark) <==> Leakproof(token, mark)
  {
    if Leakproof(token, mark) {
      forall text
        ensures !Contains(Replace(text, token, mark), token)
      {
        LeakproofIsGone(text, token, mark);
      }
    } else if token == "" {
      assert OccursAt(Replace("", token, mark), token, 0);
      assert Contains(Replace("", token, mark), token);
    } else if StartsInMark(token, mark) {
      InMarkLeaks(token, mark);
    } else {
      RunningIntoMarkLeaks(token, mark);
    }
  }

  // ----- Tokens without brackets -----

  predicate BracketFree(token: string) {
    forall i :: 0 <= i < |token| ==> token[i] != '[' && token[i] != ']'
  }

  /** In a bracketed word a token without brackets can only lie within the word. */
  lemma BracketFreeLeakproof(token: string, word: string)
    requires token != "" && BracketFree(token)
    ensures Leakproof(token, "[" + word + "]") <==> !Contains(word, token)
  {
    var mark := "[" + word + "]";
    forall a | 0 <= a < |mark|
      ensures Comparable(mark[a..], token) <==> a >= 1 && OccursAt(word, token, a - 1)
    {
      InWord(token, word, a);
    }
    forall n | 1 <= n < |token|
      ensures !RunsIntoMarkAt(token, mark, n)
    {
      NoBracketInside(token, mark, n);
    }
    if Contains(word, token) {
      var i :| 0 <= i <= |word| && OccursAt(word, token, i);
      assert Comparable(mark[i + 1..], token);
    }
  }

  lemma NoBracketInside(token: string, mark: string, n: nat)
    requires BracketFree(token) && n < |token| && mark != "" && mark[0] == '['
    ensures !Comparable(mark, token[n..])
  {
    var tail := token[n..];
    assert tail[0] == token[n];
    if |mark| <= |tail| {
      assert tail[..|mark|][0] == tail[0];
    } else {
      assert mark[..|tail|][0] == mark[0];
    }
  }

  lemma InWord(token: string, word: string, a: nat)
    requires token != "" && BracketFree(token) && a < |word| + 2
    ensures Comparable(("[" + word + "]")[a..], token) <==> a >= 1 && OccursAt(word, token, a - 1)
  {
    var mark := "[" + word + "]";
    var tail := mark[a..];
    if |tail| <= |token| {
      assert tail[|tail| - 1] == ']' && token[|tail| - 1] != ']';
      assert token[..|tail|][|tail| - 1] == token[|tail| - 1];
    } else if a == 0 {
      assert tail[..|token|][0] == '[' && token[0] != '[';
    } else {
      assert tail[..|token|] == word[a - 1..a - 1 + |token|];
    }
  }

  const WORD: string := "REDACTED"

  /** Exactly the bracket-free tokens that are no part of the inner word are always gone. */
  lemma BracketFreeGoneExactlyWhen(token: string)
    requires token != "" && BracketFree(token)
    ensures AlwaysGone(token, MARK) <==> !Contains(WORD, token)
  {
    assert MARK == "[" + WORD + "]";
    BracketFreeLeakproof(token, WORD);
    GoneExactlyWhen(token, MARK);
  }

  /** A bracket can leak: replacing `]x` in `]xx` leaves the mark followed by `x`. */
  lemma BracketLeaks()
    ensures Contains(Redact("]xx", "]x"), "]x")
    ensures !Leakproof("]x", MARK)
  {
    assert OccursAt("]xx", "]x", 0);
    assert Redact("]xx", "]x") == "[REDACTED]x";
    assert "[REDACTED]x"[9..11] == "]x";
    assert OccursAt("[REDACTED]x", "]x", 9);
    assert MARK[9..] == "]";
    assert Comparable(MARK[9..], "]x");
  }
}
