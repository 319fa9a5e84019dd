/** Regular expressions over characters, anchored at both ends, and lists of labels between dots. */
module Regex {
  import opened Text

  datatype Re =
    | Chars(accepts: char -> bool)
    | Then(first: Re, second: Re)
    | Star(body: Re)

  /** True when the whole string matches. */
  ghost predicate Matches(re: Re, s: string)
    decreases re, |s|
  {
    match re
    case Chars(accepts) => |s| == 1 && accepts(s[0])
    case Then(first, second) => exists k :: 0 <= k <= |s| && Matches(first, s[..k]) && Matches(second, s[k..])
    case Star(body) =>
      s == "" || exists k :: 0 < k <= |s| && Matches(body, s[..k]) && Matches(Star(body), s[k..])
  }

  function Plus(re: Re): Re {
    Then(re, Star(re))
  }

  predicate All(s: string, accepts: char -> bool) {
    forall i :: 0 <= i < |s| ==> accepts(s[i])
  }

  lemma MatchThen(first: Re, second: Re, a: string, b: string)
    requires Matches(first, a) && Matches(second, b)
    ensures Matches(Then(first, second), a + b)
  {
    assert (a + b)[..|a|] == a && (a + b)[|a|..] == b;
  }

  lemma ThenSplit(first: Re, second: Re, s: string) returns (k: nat)
    requires Matches(Then(first, second), s)
    ensures k <= |s| && Matches(first, s[..k]) && Matches(second, s[k..])
  {
    k :| 0 <= k <= |s| && Matches(first, s[..k]) && Matches(second, s[k..]);
  }

  lemma StarSplit(body: Re, s: string) returns (k: nat)
    requires Matches(Star(body), s) && s != ""
    ensures 0 < k <= |s| && Matches(body, s[..k]) && Matches(Star(body), s[k..])
  {
    k :| 0 < k <= |s| && Matches(body, s[..k]) && Matches(Star(body), s[k..]);
  }

  lemma StarEmpty(body: Re)
    ensures Matches(Star(body), "")
  {
  }

  lemma {:induction false} StarOfChars(accepts: char -> bool, s: string)
    ensures Matches(Star(Chars(accepts)), s) <==> All(s, accepts)
    decreases |s|
  {
    if s != "" {
      StarOfChars(accepts, s[1..]);
      assert s[..1] == [s[0]];
      if All(s, accepts) {
        assert All(s[1..], accepts);
        assert Matches(Chars(accepts), s[..1]);
      }
      if Matches(Star(Chars(accepts)), s) {
        var k :| 0 < k <= |s| && Matches(Chars(accepts), s[..k]) && Matches(Star(Chars(accepts)), s[k..]);
        assert k == 1 && accepts(s[0]);
        forall i | 0 <= i < |s|
          ensures accepts(s[i])
        {
          if i > 0 { assert s[1..][i - 1] == s[i]; }
        }
      }
    }
  }

  lemma PlusOfChars(accepts: char -> bool, s: string)
    ensures Matches(Plus(Chars(accepts)), s) <==> s != "" && All(s, accepts)
  {
    FirstThen(accepts, Star(Chars(accepts)), s);
    if s != "" {
      StarOfChars(accepts, s[1..]);
      assert All(s, accepts) <==> accepts(s[0]) && All(s[1..], accepts) by {
        if accepts(s[0]) && All(s[1..], accepts) {
          forall i | 0 <= i < |s|
            ensures accepts(s[i])
          {
            if i > 0 { assert s[1..][i - 1] == s[i]; }
          }
        }
      }
    }
  }

  lemma FirstThen(accepts: char -> bool, second: Re, s: string)
    ensures Matches(Then(Chars(accepts), second), s) <==> s != "" && accepts(s[0]) && Matches(second, s[1..])
  {
    if s != "" && accepts(s[0]) && Matches(second, s[1..]) {
      assert s[..1] == [s[0]];
      assert Matches(Chars(accepts), s[..1]);
    }
  }

  lemma ThenLast(first: Re, accepts: char -> bool, s: string)
    ensures Matches(Then(first, Chars(accepts)), s)
       <==> s != "" && Matches(first, s[..|s| - 1]) && accepts(s[|s| - 1])
  {
    if Matches(Then(first, Chars(accepts)), s) {
      var k :| 0 <= k <= |s| && Matches(first, s[..k]) && Matches(Chars(accepts), s[k..]);
      assert k == |s| - 1;
    }
    if s != "" && Matches(first, s[..|s| - 1]) && accepts(s[|s| - 1]) {
      assert Matches(Chars(accepts), s[|s| - 1..]);
    }
  }

  lemma MatchThree(a: Re, b: Re, c: Re, x: string, y: string, z: string)
    requires Matches(a, x) && Matches(b, y) && Matches(c, z)
    ensures Matches(Then(Then(a, b), c), x + y + z) && Matches(Then(a, Then(b, c)), x + y + z)
  {
    hide Matches;
    MatchThen(a, b, x, y);
    MatchThen(Then(a, b), c, x + y, z);
    MatchThen(b, c, y, z);
    MatchThen(a, Then(b, c), x, y + z);
    assert x + (y + z) == x + y + z;
  }

  /** Grouping of sequences does not matter. */
  lemma ThenAssociative(a: Re, b: Re, c: Re, s: string)
    ensures Matches(Then(Then(a, b), c), s) <==> Matches(Then(a, Then(b, c)), s)
  {
    hide Matches;
    if Matches(Then(Then(a, b), c), s) {
      var k := ThenSplit(Then(a, b), c, s);
      var j := ThenSplit(a, b, s[..k]);
      MatchThree(a, b, c, s[..k][..j], s[..k][j..], s[k..]);
      assert s[..k][..j] + s[..k][j..] + s[k..] == s;
    }
    if Matches(Then(a, Then(b, c)), s) {
      var j := ThenSplit(a, Then(b, c), s);
      var k := ThenSplit(b, c, s[j..]);
      MatchThree(a, b, c, s[..j], s[j..][..k], s[j..][k..]);
      assert s[..j] + s[j..][..k] + s[j..][k..] == s;
    }
  }

  // ----- Labels between dots -----

  const DOT: char -> bool := c => c == '.'

  /** Labels of one kind, then a last one of another. */
  ghost predicate AllLabels(parts: seq<string>, word: Re, last: Re) {
    parts != [] &&
    if |parts| == 1 then Matches(last, parts[0])
    else Matches(word, parts[0]) && AllLabels(parts[1..], word, last)
  }

  ghost predicate MatchesWithout(re: Re, c: char) {
    forall s :: Matches(re, s) ==> Without(s, c)
  }

  function Dotted(word: Re): Re {
    Then(word, Chars(DOT))
  }

  lemma SplitFirst(w: string, rest: string, sep: char)
    requires Without(w, sep)
    ensures Split(w + [sep] + rest, sep) == [w] + Split(rest, sep)
  {
    var s := [sep] + rest;
    assert w + [sep] + rest == w + s;
    assert s[1..] == rest;
    SplitPrefix(w, s, sep);
    assert w + "" == w;
  }

  lemma SplitNone(w: string, sep: char)
    requires Without(w, sep)
    ensures Split(w, sep) == [w]
  {
    SplitPrefix(w, "", sep);
    assert w + "" == w;
  }

  lemma DotMatches()
    ensures Matches(Chars(DOT), ".")
  {
  }

  lemma LabelsCons(w: string, rest: seq<string>, word: Re, last: Re)
    requires Matches(word, w) && AllLabels(rest, word, last)
    ensures AllLabels([w] + rest, word, last)
  {
    assert ([w] + rest)[1..] == rest;
  }

  /** The first dotted word of a match is the first part between dots. */
  lemma DottedFirst(word: Re, s: string, j: nat)
    requires MatchesWithout(word, '.') && j <= |s| && Matches(Dotted(word), s[..j])
    ensures j >= 1 && Matches(word, s[..j - 1])
    ensures Split(s, '.') == [s[..j - 1]] + Split(s[j..], '.')
  {
    ThenLast(word, DOT, s[..j]);
    var w := s[..j - 1];
    assert s[..j][..j - 1] == w;
    hide Matches;
    assert s == w + ['.'] + s[j..];
    SplitFirst(w, s[j..], '.');
  }

  /** Dotted words and a last one: what the expression matches is what splitting at the dots shows. */
  lemma {:induction false} DottedMatches(word: Re, last: Re, s: string)
    requires MatchesWithout(word, '.') && MatchesWithout(last, '.')
    requires Matches(Then(Star(Dotted(word)), last), s)
    ensures AllLabels(Split(s, '.'), word, last)
    decreases |s|
  {
    hide Matches;
    var k := ThenSplit(Star(Dotted(word)), last, s);
    if k == 0 {
      assert s[0..] == s;
      SplitNone(s, '.');
    } else {
      var j := StarSplit(Dotted(word), s[..k]);
      assert s[..k][..j] == s[..j];
      MatchThen(Star(Dotted(word)), last, s[..k][j..], s[k..]);
      assert s[..k][j..] + s[k..] == s[j..];
      DottedMatches(word, last, s[j..]);
      DottedFirst(word, s, j);
      LabelsCons(s[..j - 1], Split(s[j..], '.'), word, last);
    }
  }

  lemma {:induction false} LabelsMatch(word: Re, last: Re, parts: seq<string>)
    requires AllLabels(parts, word, last)
    ensures Matches(Then(Star(Dotted(word)), last), Join(parts, "."))
    decreases |parts|
  {
    hide Matches;
    if |parts| == 1 {
      StarEmpty(Dotted(word));
      MatchThen(Star(Dotted(word)), last, "", parts[0]);
      assert "" + parts[0] == parts[0];
    } else {
      LabelsMatch(word, last, parts[1..]);
      PrependDotted(word, last, parts[0], Join(parts[1..], "."));
    }
  }

  lemma PrependDotted(word: Re, last: Re, w: string, rest: string)
    requires Matches(word, w) && Matches(Then(Star(Dotted(word)), last), rest)
    ensures Matches(Dotted(word), w + ".")
    ensures Matches(Then(Star(Dotted(word)), last), w + "." + rest)
  {
    hide Matches;
    var k := ThenSplit(Star(Dotted(word)), last, rest);
    DotMatches();
    MatchThen(word, Chars(DOT), w, ".");
    StarCons(Dotted(word), w + ".", rest[..k]);
    MatchThen(Star(Dotted(word)), last, w + "." + rest[..k], rest[k..]);
    assert w + "." + rest[..k] + rest[k..] == w + "." + rest;
  }

  lemma StarCons(body: Re, a: string, b: string)
    requires a != "" && Matches(body, a) && Matches(Star(body), b)
    ensures Matches(Star(body), a + b)
  {
    assert (a + b)[..|a|] == a && (a + b)[|a|..] == b;
  }

  lemma StarDottedIsLabels(word: Re, last: Re, s: string)
    requires MatchesWithout(word, '.') && MatchesWithout(last, '.')
    ensures Matches(Then(Star(Dotted(word)), last), s) <==> AllLabels(Split(s, '.'), word, last)
  {
    hide Matches, AllLabels;
    JoinSplit(s, '.');
    if Matches(Then(Star(Dotted(word)), last), s) { DottedMatches(word, last, s); }
    if AllLabels(Split(s, '.'), word, last) { LabelsMatch(word, last, Split(s, '.')); }
  }

  lemma PlusDottedIsLabels(word: Re, last: Re, s: string)
    requires MatchesWithout(word, '.') && MatchesWithout(last, '.')
    ensures Matches(Then(Plus(Dotted(word)), last), s)
       <==> |Split(s, '.')| >= 2 && AllLabels(Split(s, '.'), word, last)
  {
    hide Matches;
    var tail := Then(Star(Dotted(word)), last);
    ThenAssociative(Dotted(word), Star(Dotted(word)), last, s);
    if Matches(Then(Dotted(word), tail), s) {
      var j := ThenSplit(Dotted(word), tail, s);
      DottedFirst(word, s, j);
      StarDottedIsLabels(word, last, s[j..]);
      LabelsCons(s[..j - 1], Split(s[j..], '.'), word, last);
    }
    var parts := Split(s, '.');
    if |parts| >= 2 && AllLabels(parts, word, last) {
      JoinSplit(s, '.');
      var rest := Join(parts[1..], ".");
      LabelsMatch(word, last, parts[1..]);
      PrependDotted(word, last, parts[0], rest);
      MatchThen(Dotted(word), tail, parts[0] + ".", rest);
      assert parts[0] + "." + rest == s;
    }
  }
}
