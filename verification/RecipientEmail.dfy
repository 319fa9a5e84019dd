/**
 Recipient addresses: the regular expression of the web application and the hand-written scanner of
 the command line accept the same strings.
 */
module RecipientEmail {
  import opened Text
  import opened Utf8
  import opened Regex

  predicate IsAlphabetic(c: char) {
    'A' <= c <= 'Z' || 'a' <= c <= 'z'
  }

  predicate IsAlphanumeric(c: char) {
    IsAlphabetic(c) || '0' <= c <= '9'
  }

  // ----- The regular expression -----

  const ATOM: char -> bool := c => IsAlphanumeric(c) || c == '_' || c == '\'' || c == '+' || c == '-'
  const ATOM_END: char -> bool := c => IsAlphanumeric(c) || c == '_' || c == '+' || c == '-'
  const ALPHANUMERIC: char -> bool := c => IsAlphanumeric(c)
  const HOST: char -> bool := c => IsAlphanumeric(c) || c == '-'
  const ALPHABETIC: char -> bool := c => IsAlphabetic(c)
  const AT: char -> bool := c => c == '@'

  function Atom(): Re { Plus(Chars(ATOM)) }
  function LastAtom(): Re { Then(Star(Chars(ATOM)), Chars(ATOM_END)) }
  function Host(): Re { Then(Chars(ALPHANUMERIC), Star(Chars(HOST))) }
  function TopLevel(): Re { Then(Chars(ALPHABETIC), Plus(Chars(ALPHABETIC))) }

  /** `(?:[A-Za-z0-9_'+-]+\.)*[A-Za-z0-9_'+-]*[A-Za-z0-9_+-]` */
  function Local(): Re { Then(Star(Dotted(Atom())), LastAtom()) }

  /** `(?:[A-Za-z0-9][A-Za-z0-9-]*\.)+[A-Za-z]{2,}` */
  function Domain(): Re { Then(Plus(Dotted(Host())), TopLevel()) }

  function Pattern(): Re { Then(Local(), Then(Chars(AT), Domain())) }

  const MAX_LENGTH := 320

  /** What the web application accepts: a length in UTF-16 code units, and the expression. */
  ghost predicate IsValid(email: string) {
    1 <= Utf16Length(email) <= MAX_LENGTH && Matches(Pattern(), email)
  }

  // ----- What the parts of the expression match -----

  lemma AtomMatches(s: string)
    ensures Matches(Atom(), s) <==> s != "" && All(s, ATOM)
  {
    PlusOfChars(ATOM, s);
  }

  lemma LastAtomMatches(s: string)
    ensures Matches(LastAtom(), s) <==> s != "" && All(s, ATOM) && ATOM_END(s[|s| - 1])
  {
    ThenLast(Star(Chars(ATOM)), ATOM_END, s);
    if s != "" {
      StarOfChars(ATOM, s[..|s| - 1]);
      AllButLast(s, ATOM);
    }
  }

  lemma AllButLast(s: string, accepts: char -> bool)
    requires s != ""
    ensures All(s, accepts) <==> All(s[..|s| - 1], accepts) && accepts(s[|s| - 1])
  {
    if All(s[..|s| - 1], accepts) && accepts(s[|s| - 1]) {
      forall i | 0 <= i < |s|
        ensures accepts(s[i])
      {
        if i < |s| - 1 { assert s[..|s| - 1][i] == s[i]; }
      }
    }
  }

  lemma AllButFirst(s: string, accepts: char -> bool)
    requires s != ""
    ensures All(s, accepts) <==> accepts(s[0]) && All(s[1..], accepts)
  {
    if accepts(s[0]) && All(s[1..], accepts) {
      forall i | 0 <= i < |s|
        ensures accepts(s[i])
      {
        if i > 0 { assert s[1..][i - 1] == s[i]; }
      }
    }
  }

  lemma HostMatches(s: string)
    ensures Matches(Host(), s) <==> s != "" && IsAlphanumeric(s[0]) && All(s, HOST)
  {
    FirstThen(ALPHANUMERIC, Star(Chars(HOST)), s);
    if s != "" {
      StarOfChars(HOST, s[1..]);
      AllButFirst(s, HOST);
    }
  }

  lemma TopLevelMatches(s: string)
    ensures Matches(TopLevel(), s) <==> |s| >= 2 && All(s, ALPHABETIC)
  {
    FirstThen(ALPHABETIC, Plus(Chars(ALPHABETIC)), s);
    if s != "" {
      PlusOfChars(ALPHABETIC, s[1..]);
      AllButFirst(s, ALPHABETIC);
    }
  }

  lemma NoDots()
    ensures MatchesWithout(Atom(), '.') && MatchesWithout(LastAtom(), '.')
    ensures MatchesWithout(Host(), '.') && MatchesWithout(TopLevel(), '.')
  {
    hide Matches, Atom, LastAtom, Host, TopLevel;
    forall s
      ensures Matches(Atom(), s) ==> Without(s, '.')
      ensures Matches(LastAtom(), s) ==> Without(s, '.')
      ensures Matches(Host(), s) ==> Without(s, '.')
      ensures Matches(TopLevel(), s) ==> Without(s, '.')
    {
      AtomMatches(s);
      LastAtomMatches(s);
      HostMatches(s);
      TopLevelMatches(s);
    }
  }

  // ----- The local part, character by character -----

  const LOCAL: char -> bool := c => ATOM(c) || c == '.'

  /** No dot at the start or the end or behind another one, and no apostrophe at the end. */
  predicate IsLocal(s: string) {
    s != "" && s[0] != '.' && ATOM_END(s[|s| - 1]) && All(s, LOCAL) && NoDoubleDot(s)
  }

  predicate NoDoubleDot(s: string) {
    forall i :: 0 <= i < |s| - 1 ==> !(s[i] == '.' && s[i + 1] == '.')
  }

  lemma {:induction false} LabelsAreLocal(s: string)
    ensures AllLabels(Split(s, '.'), Atom(), LastAtom()) <==> IsLocal(s)
    decreases |s|
  {
    hide Matches, Atom, LastAtom, IsLocal;
    if Without(s, '.') {
      SplitNone(s, '.');
      LastAtomMatches(s);
      NoDotsLocal(s);
    } else {
      var d := FirstDot(s);
      var w, rest := s[..d], s[d + 1..];
      assert s == w + ['.'] + rest;
      SplitFirst(w, rest, '.');
      assert ([w] + Split(rest, '.'))[1..] == Split(rest, '.');
      AtomMatches(w);
      LabelsAreLocal(rest);
      LocalSplits(w, rest);
    }
  }

  lemma FirstDot(s: string) returns (d: nat)
    requires !Without(s, '.')
    ensures d < |s| && s[d] == '.' && Without(s[..d], '.')
  {
    d := 0;
    while s[d] != '.'
      invariant d < |s| && Without(s[..d], '.')
      invariant exists i :: d <= i < |s| && s[i] == '.'
      decreases |s| - d
    {
      d := d + 1;
    }
  }

  lemma NoDotsLocal(s: string)
    requires Without(s, '.')
    ensures IsLocal(s) <==> s != "" && All(s, ATOM) && ATOM_END(s[|s| - 1])
  {
  }

  lemma LocalSplits(w: string, rest: string)
    requires Without(w, '.')
    ensures IsLocal(w + ['.'] + rest) <==> w != "" && All(w, ATOM) && IsLocal(rest)
  {
    if IsLocal(w + ['.'] + rest) { LocalCut(w, rest); }
    if w != "" && All(w, ATOM) && IsLocal(rest) { LocalJoined(w, rest); }
  }

  lemma LocalCut(w: string, rest: string)
    requires Without(w, '.') && IsLocal(w + ['.'] + rest)
    ensures w != "" && All(w, ATOM) && IsLocal(rest)
  {
    var s := w + ['.'] + rest;
    var n := |w|;
    assert forall i :: 0 <= i < |rest| ==> rest[i] == s[n + 1 + i];
    assert forall i :: 0 <= i < n ==> w[i] == s[i];
    assert s[n] == '.';
  }

  lemma LocalJoined(w: string, rest: string)
    requires w != "" && All(w, ATOM) && IsLocal(rest)
    ensures IsLocal(w + ['.'] + rest)
  {
    var s := w + ['.'] + rest;
    var n := |w|;
    forall i | 0 <= i < |s|
      ensures LOCAL(s[i])
    {
      if i < n { assert s[i] == w[i]; } else if i > n { assert s[i] == rest[i - n - 1]; }
    }
    forall i | 0 <= i < |s| - 1
      ensures !(s[i] == '.' && s[i + 1] == '.')
    {
      if i < n { assert s[i] == w[i]; } else if i > n { assert s[i] == rest[i - n - 1] && s[i + 1] == rest[i - n]; }
    }
  }

  lemma LocalMatches(s: string)
    ensures Matches(Local(), s) <==> IsLocal(s)
  {
    hide Matches, Atom, LastAtom, IsLocal;
    NoDots();
    StarDottedIsLabels(Atom(), LastAtom(), s);
    LabelsAreLocal(s);
  }

  // ----- The two sides of the at sign -----

  lemma DomainCharacters(s: string)
    requires Matches(Domain(), s)
    ensures forall i :: 0 <= i < |s| ==> HOST(s[i]) || s[i] == '.'
  {
    hide Matches, Host, TopLevel;
    NoDots();
    PlusDottedIsLabels(Host(), TopLevel(), s);
    JoinSplit(s, '.');
    LabelCharacters(Split(s, '.'));
  }

  lemma {:induction false} LabelCharacters(parts: seq<string>)
    requires AllLabels(parts, Host(), TopLevel())
    ensures forall i :: 0 <= i < |Join(parts, ".")| ==> HOST(Join(parts, ".")[i]) || Join(parts, ".")[i] == '.'
    decreases |parts|
  {
    hide Matches, Host, TopLevel;
    if |parts| == 1 {
      TopLevelMatches(parts[0]);
    } else {
      HostMatches(parts[0]);
      LabelCharacters(parts[1..]);
    }
  }

  lemma PatternSplits(s: string)
    requires Matches(Pattern(), s)
    ensures var parts := Split(s, '@');
            |parts| == 2 && Matches(Local(), parts[0]) && Matches(Domain(), parts[1])
  {
    hide Matches, Local, Domain, Split;
    var k := ThenSplit(Local(), Then(Chars(AT), Domain()), s);
    FirstThen(AT, Domain(), s[k..]);
    var a, b := s[..k], s[k..][1..];
    assert s == a + ['@'] + b;
    LocalMatches(a);
    DomainCharacters(b);
    SplitFirst(a, b, '@');
    SplitNone(b, '@');
  }

  lemma PatternJoins(a: string, b: string)
    requires Matches(Local(), a) && Matches(Domain(), b)
    ensures Matches(Pattern(), a + "@" + b)
  {
    hide Matches, Local, Domain;
    var c := "@" + b;
    assert c[1..] == b;
    FirstThen(AT, Domain(), c);
    MatchThen(Local(), Then(Chars(AT), Domain()), a, c);
    assert a + c == a + "@" + b;
  }

  lemma PatternMatches(s: string)
    ensures Matches(Pattern(), s)
       <==> var parts := Split(s, '@');
            |parts| == 2 && Matches(Local(), parts[0]) && Matches(Domain(), parts[1])
  {
    hide Matches, Local, Domain, Pattern;
    var parts := Split(s, '@');
    if Matches(Pattern(), s) { PatternSplits(s); }
    if |parts| == 2 && Matches(Local(), parts[0]) && Matches(Domain(), parts[1]) {
      PatternJoins(parts[0], parts[1]);
      JoinSplit(s, '@');
      assert parts[0] + "@" + parts[1] == s;
    }
  }

  // ----- Bytes of addresses -----

  predicate Ascii(s: string) {
    forall i :: 0 <= i < |s| ==> s[i] as int < 0x80
  }

  /** Bytes as characters of the same code. */
  function AsChars(b: seq<byte>): (s: string)
    ensures |s| == |b| && forall i :: 0 <= i < |b| ==> s[i] == b[i] as char
  {
    seq(|b|, i requires 0 <= i < |b| => b[i] as char)
  }

  /** The bytes of a string are its characters, unless some byte is outside ASCII. */
  lemma {:induction false} BytesOfAscii(s: string)
    ensures Ascii(s) ==> AsChars(Encode(s)) == s && Utf16Length(s) == |s|
    ensures Ascii(AsChars(Encode(s))) ==> Ascii(s)
    ensures |Encode(s)| >= |s|
  {
    EncodedBytes(s);
    Utf16OfAscii(s);
  }

  lemma EncodeFirst(s: string)
    requires s != ""
    ensures AsChars(Encode(s)) == AsChars(EncodeChar(s[0])) + AsChars(Encode(s[1..]))
  {
  }

  lemma AsciiChar(c: char)
    ensures c as int < 0x80 ==> AsChars(EncodeChar(c)) == [c]
    ensures c as int >= 0x80 ==> AsChars(EncodeChar(c))[0] as int >= 0x80
  {
  }

  lemma AsciiCut(a: string, b: string)
    ensures Ascii(a + b) <==> Ascii(a) && Ascii(b)
  {
    assert forall i :: 0 <= i < |a| ==> (a + b)[i] == a[i];
    assert forall i :: 0 <= i < |b| ==> (a + b)[|a| + i] == b[i];
  }

  lemma {:induction false} EncodedBytes(s: string)
    ensures Ascii(s) ==> AsChars(Encode(s)) == s
    ensures Ascii(AsChars(Encode(s))) ==> Ascii(s)
    ensures |Encode(s)| >= |s|
  {
    hide EncodeChar;
    if s != "" {
      var first, rest := AsChars(EncodeChar(s[0])), AsChars(Encode(s[1..]));
      EncodedBytes(s[1..]);
      EncodeFirst(s);
      AsciiChar(s[0]);
      AsciiCut(first, rest);
      AsciiCut([s[0]], s[1..]);
      assert s == [s[0]] + s[1..];
    }
  }

  lemma {:induction false} Utf16OfAscii(s: string)
    ensures Ascii(s) ==> Utf16Length(s) == |s|
    decreases |s|
  {
    if s != "" { Utf16OfAscii(s[..|s| - 1]); }
  }

  lemma PatternIsAscii(s: string)
    requires Matches(Pattern(), s)
    ensures Ascii(s) && s != ""
  {
    hide Matches, Local, Domain, Pattern;
    PatternMatches(s);
    var parts := Split(s, '@');
    LocalMatches(parts[0]);
    DomainCharacters(parts[1]);
    JoinSplit(s, '@');
    assert s == parts[0] + "@" + parts[1];
  }

  // ----- The scanner -----

  /** The characters the command line's trimming removes: those with the property White_Space. */
  predicate IsWhiteSpace(c: char) {
    var v := c as int;
    9 <= v <= 13 || v == 0x20 || v == 0x85 || v == 0xA0 || v == 0x1680 || 0x2000 <= v <= 0x200A ||
    v == 0x2028 || v == 0x2029 || v == 0x202F || v == 0x205F || v == 0x3000
  }

  function TrimStart(s: string, space: char -> bool): string {
    if s != "" && space(s[0]) then TrimStart(s[1..], space) else s
  }

  function TrimEnd(s: string, space: char -> bool): string {
    if s != "" && space(s[|s| - 1]) then TrimEnd(s[..|s| - 1], space) else s
  }

  function TrimBy(s: string, space: char -> bool): string {
    TrimEnd(TrimStart(s, space), space)
  }

  function Trim(s: string): string {
    TrimBy(s, IsWhiteSpace)
  }

  ghost predicate OnlySpace(s: string, space: char -> bool) {
    forall i :: 0 <= i < |s| ==> space(s[i])
  }

  ghost predicate IsTrimmed(s: string, trimmed: string, before: string, after: string, space: char -> bool) {
    && s == before + trimmed + after && OnlySpace(before, space) && OnlySpace(after, space)
    && (trimmed != "" ==> !space(trimmed[0]) && !space(trimmed[|trimmed| - 1]))
  }

  lemma {:induction false} TrimStartIs(s: string, space: char -> bool) returns (before: string)
    ensures s == before + TrimStart(s, space) && OnlySpace(before, space)
    ensures TrimStart(s, space) != "" ==> !space(TrimStart(s, space)[0])
  {
    before := "";
    if s != "" && space(s[0]) {
      var inner := TrimStartIs(s[1..], space);
      before := [s[0]] + inner;
    }
  }

  lemma {:induction false} TrimEndIs(s: string, space: char -> bool) returns (after: string)
    ensures s == TrimEnd(s, space) + after && OnlySpace(after, space)
    ensures TrimEnd(s, space) != "" ==> !space(TrimEnd(s, space)[|TrimEnd(s, space)| - 1])
  {
    after := "";
    if s != "" && space(s[|s| - 1]) {
      var inner := TrimEndIs(s[..|s| - 1], space);
      after := inner + [s[|s| - 1]];
    }
  }

  /** Trimming takes off white space on both sides, all of it and nothing else. */
  lemma TrimIs(s: string, space: char -> bool)
    ensures exists before, after :: IsTrimmed(s, TrimBy(s, space), before, after, space)
  {
    var before := TrimStartIs(s, space);
    var after := TrimEndIs(TrimStart(s, space), space);
    var trimmed := TrimBy(s, space);
    if trimmed != "" { assert trimmed[0] == TrimStart(s, space)[0]; }
    assert IsTrimmed(s, trimmed, before, after, space);
  }

  /** Scans the bytes of the local part with a flag for a dot just passed. */
  method ScanLocal(part: string) returns (ok: bool)
    ensures ok <==> IsLocal(part)
  {
    hide Encode;
    var bytes := AsChars(Encode(part));
    LocalOfBytes(part);
    if |bytes| == 0 { return false; }
    if bytes[0] == '.' { return false; }
    var lastByte := bytes[|bytes| - 1];
    if !IsAlphanumeric(lastByte) && lastByte != '_' && lastByte != '+' && lastByte != '-' { return false; }
    var prevDot := false;
    for i := 0 to |bytes|
      invariant prevDot <==> i > 0 && bytes[i - 1] == '.'
      invariant forall k :: 0 <= k < i ==> LOCAL(bytes[k])
      invariant forall k :: 0 <= k < i - 1 ==> !(bytes[k] == '.' && bytes[k + 1] == '.')
    {
      var b := bytes[i];
      if b == '.' {
        if prevDot { return false; }
        prevDot := true;
      } else if IsAlphanumeric(b) || b == '_' || b == '\'' || b == '+' || b == '-' {
        prevDot := false;
      } else {
        return false;
      }
    }
    ok := !prevDot;
  }

  lemma LocalOfBytes(part: string)
    ensures Encode(part) == [] ==> part == ""
    ensures IsLocal(part) <==> IsLocal(AsChars(Encode(part)))
  {
    hide Encode;
    BytesOfAscii(part);
    LocalIsAscii(part);
    LocalIsAscii(AsChars(Encode(part)));
  }

  lemma LocalIsAscii(s: string)
    ensures IsLocal(s) ==> Ascii(s)
  {
  }

  /** Scans the labels of the domain; the last one is the top level. */
  method ScanDomain(domain: string) returns (ok: bool)
    ensures ok <==> Matches(Domain(), domain)
  {
    hide Matches, Encode, Host, TopLevel;
    NoDots();
    PlusDottedIsLabels(Host(), TopLevel(), domain);
    var parts := Split(domain, '.');
    if |parts| < 2 { return false; }
    assert parts[0..] == parts;
    for i := 0 to |parts|
      invariant i < |parts| ==> (AllLabels(parts, Host(), TopLevel()) <==> AllLabels(parts[i..], Host(), TopLevel()))
      invariant i == |parts| ==> AllLabels(parts, Host(), TopLevel())
    {
      var part := parts[i];
      HostMatches(part);
      TopLevelMatches(part);
      BytesOfAscii(part);
      assert parts[i..][0] == part && parts[i..][1..] == parts[i + 1..];
      var bytes := AsChars(Encode(part));
      if |part| == 0 { return false; }
      if i == |parts| - 1 {
        if |bytes| < 2 || !All(part, IsAlphabetic) { return false; }
      } else {
        if !IsAlphanumeric(bytes[0]) { return false; }
        if !All(part, c => IsAlphanumeric(c) || c == '-') { return false; }
      }
    }
    ok := true;
  }

  /** The scanner accepts a string exactly when the web application accepts it trimmed. */
  method IsValidRecipientEmail(email: string) returns (ok: bool)
    ensures ok <==> IsValid(Trim(email))
  {
    hide Matches, Pattern, Local, Domain, Encode, IsLocal;
    var trimmed := Trim(email);
    PatternMatches(trimmed);
    BytesOfAscii(trimmed);
    if Matches(Pattern(), trimmed) { PatternIsAscii(trimmed); }
    if |trimmed| == 0 || |Encode(trimmed)| > MAX_LENGTH { return false; }
    var parts := Split(trimmed, '@');
    if |parts| != 2 { return false; }
    LocalMatches(parts[0]);
    ok := ScanLocal(parts[0]);
    if ok { ok := ScanDomain(parts[1]); }
  }
}
