/**
 Strings as sequences of Unicode scalar values, and the two views the diff takes of a text:
 its lines without terminators, and its chunks, which keep each terminator.
 */
module Text {

  /** Cuts a string at every separator; the result is never empty. */
  function Split(s: string, sep: char): (parts: seq<string>)
    ensures |parts| >= 1
  {
    if s == "" then [""]
    else
      var rest := Split(s[1..], sep);
      if s[0] == sep then [""] + rest else [[s[0]] + rest[0]] + rest[1..]
  }

  function Join(parts: seq<string>, sep: string): string {
    if parts == [] then ""
    else if |parts| == 1 then parts[0]
    else parts[0] + sep + Join(parts[1..], sep)
  }

  predicate Without(s: string, c: char) {
    forall i :: 0 <= i < |s| ==> s[i] != c
  }

  predicate AllWithout(parts: seq<string>, c: char) {
    forall i :: 0 <= i < |parts| ==> Without(parts[i], c)
  }

  predicate EndsWith(s: string, c: char) {
    s != "" && s[|s| - 1] == c
  }

  predicate StartsWith(s: string, prefix: string) {
    |prefix| <= |s| && s[..|prefix|] == prefix
  }

  /** The length of a string in UTF-16 code units. */
  function Utf16Length(s: string): nat {
    if s == "" then 0 else Utf16Length(s[..|s| - 1]) + if s[|s| - 1] as int >= 0x1_0000 then 2 else 1
  }

  /** The lines of a text: a final newline ends the last line and does not start another. */
  function TextLines(text: string): seq<string> {
    if text == "" then []
    else
      var lines := Split(text, '\n');
      if EndsWith(text, '\n') then lines[..|lines| - 1] else lines
  }

  /** True when the last line of a non-empty text carries no newline. */
  predicate LacksFinalNewline(text: string) {
    text != "" && !EndsWith(text, '\n')
  }

  function Concat(parts: seq<string>): string {
    if parts == [] then "" else parts[0] + Concat(parts[1..])
  }

  /** Every line followed by a newline. */
  function Unlines(lines: seq<string>): string {
    Concat(Terminated(lines, false))
  }

  /** Lines with their terminators: a newline each, except for the last one of an open-ended text. */
  function Terminated(lines: seq<string>, openEnded: bool): (chunks: seq<string>)
    ensures |chunks| == |lines|
  {
    seq(|lines|, i requires 0 <= i < |lines| => lines[i] + if openEnded && i == |lines| - 1 then "" else "\n")
  }

  /** The lines of a text, each with the newline that ends it in the text. */
  function Chunks(text: string): (chunks: seq<string>)
    ensures |chunks| == |TextLines(text)|
  {
    Terminated(TextLines(text), LacksFinalNewline(text))
  }

  // ----- Split and Join are inverse -----

  lemma {:induction false} SplitParts(s: string, sep: char)
    ensures AllWithout(Split(s, sep), sep)
  {
    if s != "" {
      SplitParts(s[1..], sep);
      var rest := Split(s[1..], sep);
      assert Without(rest[0], sep);
    }
  }

  lemma {:induction false} JoinSplit(s: string, sep: char)
    ensures Join(Split(s, sep), [sep]) == s
  {
    if s != "" {
      JoinSplit(s[1..], sep);
      var rest := Split(s[1..], sep);
      if s[0] == sep {
        assert ([""] + rest)[1..] == rest;
      } else {
        var parts := [[s[0]] + rest[0]] + rest[1..];
        assert parts[1..] == rest[1..];
        if |rest| > 1 {
          assert parts[0] + [sep] + Join(rest[1..], [sep]) == [s[0]] + (rest[0] + [sep] + Join(rest[1..], [sep]));
        }
      }
    }
  }

  lemma {:induction false} SplitPrefix(a: string, s: string, sep: char)
    requires Without(a, sep)
    ensures Split(a + s, sep) == [a + Split(s, sep)[0]] + Split(s, sep)[1..]
  {
    if a == "" {
      assert a + s == s;
      assert a + Split(s, sep)[0] == Split(s, sep)[0];
    } else {
      assert (a + s)[1..] == a[1..] + s;
      assert Without(a[1..], sep);
      SplitPrefix(a[1..], s, sep);
      assert [a[0]] + (a[1..] + Split(s, sep)[0]) == a + Split(s, sep)[0];
    }
  }

  lemma {:induction false} SplitJoin(parts: seq<string>, sep: char)
    requires parts != [] && AllWithout(parts, sep)
    ensures Split(Join(parts, [sep]), sep) == parts
  {
    assert Without(parts[0], sep);
    if |parts| == 1 {
      SplitPrefix(parts[0], "", sep);
      assert parts[0] + "" == parts[0];
    } else {
      assert AllWithout(parts[1..], sep);
      SplitJoin(parts[1..], sep);
      var rest := [sep] + Join(parts[1..], [sep]);
      assert rest[1..] == Join(parts[1..], [sep]);
      SplitPrefix(parts[0], rest, sep);
      assert parts[0] + [sep] + Join(parts[1..], [sep]) == parts[0] + rest;
      assert Split(rest, sep) == [""] + parts[1..];
      assert parts[0] + "" == parts[0];
    }
  }

  // ----- Lines and chunks -----

  lemma {:induction false} JoinSnoc(parts: seq<string>, last: string, sep: string)
    requires parts != []
    ensures Join(parts + [last], sep) == Join(parts, sep) + sep + last
  {
    if |parts| == 1 {
      assert (parts + [last])[1..] == [last];
    } else {
      assert (parts + [last])[1..] == parts[1..] + [last];
      JoinSnoc(parts[1..], last, sep);
      assert (parts + [last])[0] == parts[0];
      assert parts[0] + sep + (Join(parts[1..], sep) + sep + last)
          == (parts[0] + sep + Join(parts[1..], sep)) + sep + last;
    }
  }

  lemma {:induction false} ConcatAppend(a: seq<string>, b: seq<string>)
    ensures Concat(a + b) == Concat(a) + Concat(b)
  {
    if a == [] {
      assert a + b == b;
    } else {
      assert (a + b)[1..] == a[1..] + b;
      ConcatAppend(a[1..], b);
    }
  }

  lemma TerminatedTail(lines: seq<string>, openEnded: bool)
    requires lines != []
    ensures Terminated(lines, openEnded)
         == [lines[0] + if openEnded && |lines| == 1 then "" else "\n"] + Terminated(lines[1..], openEnded)
  {
    var tail := lines[1..];
    forall i | 0 <= i < |tail|
      ensures Terminated(lines, openEnded)[i + 1] == Terminated(tail, openEnded)[i]
    {
      assert tail[i] == lines[i + 1];
    }
  }

  lemma {:induction false} UnlinesIsJoin(lines: seq<string>)
    requires lines != []
    ensures Unlines(lines) == Join(lines, "\n") + "\n"
  {
    var ended := Terminated(lines, false);
    var tail := lines[1..];
    TerminatedTail(lines, false);
    if |lines| == 1 {
      assert ended[0] + Concat(ended[1..]) == ended[0];
    } else {
      UnlinesIsJoin(tail);
      assert lines[0] + "\n" + (Join(tail, "\n") + "\n") == (lines[0] + "\n" + Join(tail, "\n")) + "\n";
    }
  }

  /** Lines written out one per line are read back unchanged. */
  lemma TextLinesOfUnlines(lines: seq<string>)
    requires AllWithout(lines, '\n')
    ensures TextLines(Unlines(lines)) == lines
    ensures !LacksFinalNewline(Unlines(lines))
  {
    if lines != [] {
      UnlinesIsJoin(lines);
      var text := Unlines(lines);
      JoinSnoc(lines, "", "\n");
      assert Join(lines, "\n") + "\n" + "" == text;
      SplitJoin(lines + [""], '\n');
      assert EndsWith(text, '\n');
      assert (lines + [""])[..|lines|] == lines;
    }
  }

  lemma TextLinesNewlineFree(text: string)
    ensures AllWithout(TextLines(text), '\n')
  {
    SplitParts(text, '\n');
  }

  lemma {:induction false} SplitEndsWith(s: string, sep: char)
    requires EndsWith(s, sep)
    ensures |Split(s, sep)| >= 2 && Split(s, sep)[|Split(s, sep)| - 1] == ""
  {
    if |s| > 1 {
      assert EndsWith(s[1..], sep);
      SplitEndsWith(s[1..], sep);
    }
  }

  /** A text is its lines joined, plus the final newline it has or lacks. */
  lemma TextFromLines(text: string)
    requires text != ""
    ensures TextLines(text) != []
    ensures text == Join(TextLines(text), "\n") + if LacksFinalNewline(text) then "" else "\n"
  {
    JoinSplit(text, '\n');
    if EndsWith(text, '\n') {
      SplitEndsWith(text, '\n');
      var parts := Split(text, '\n');
      var lines := parts[..|parts| - 1];
      assert parts == lines + [""];
      JoinSnoc(lines, "", "\n");
    }
  }

  /** The chunks of a text are exactly the text, cut after every newline. */
  lemma ConcatChunks(text: string)
    ensures Concat(Chunks(text)) == text
  {
    hide Split, Join;
    if text != "" {
      TextFromLines(text);
      var lines := TextLines(text);
      var last := |lines| - 1;
      UnlinesIsJoin(lines);
      if LacksFinalNewline(text) {
        var ended := Terminated(lines, false);
        assert ended == ended[..last] + [lines[last] + "\n"];
        assert lines[last] + "" == lines[last];
        assert Chunks(text) == ended[..last] + [lines[last]];
        ConcatAppend(ended[..last], [lines[last] + "\n"]);
        ConcatAppend(ended[..last], [lines[last]]);
        assert Concat([lines[last] + "\n"]) == lines[last] + "\n";
        assert Concat([lines[last]]) == lines[last];
        var whole := Concat(ended[..last]) + lines[last];
        assert whole + "\n" == Unlines(lines) == Join(lines, "\n") + "\n" == text + "\n";
        assert whole == (whole + "\n")[..|whole|] && text == (text + "\n")[..|text|];
      } else {
        assert Chunks(text) == Terminated(lines, false);
      }
    }
  }

  /** Two texts with the same lines that agree on the final newline are the same text. */
  lemma TextDetermined(a: string, b: string)
    requires TextLines(a) == TextLines(b)
    requires LacksFinalNewline(a) == LacksFinalNewline(b)
    ensures a == b
  {
    if a != "" { TextFromLines(a); }
    if b != "" { TextFromLines(b); }
  }
}
