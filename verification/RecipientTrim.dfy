/**
 The web application's request schema and the command line trim an address before they check it, but not
 by the same set of characters: exactly when they still agree. Callers that also lower-case the address
 first are not modelled.
 */
module RecipientTrim {
  import opened Text
  import opened RecipientEmail

  const NEXT_LINE: char := '\U{0085}'
  const NO_BREAK: char := '\U{FEFF}'

  /** The characters the web application's trimming removes: U+FEFF, but not U+0085. */
  predicate IsWebSpace(c: char) {
    c == NO_BREAK || (c != NEXT_LINE && IsWhiteSpace(c))
  }

  /** The characters either program removes. */
  predicate IsEitherSpace(c: char) {
    IsWhiteSpace(c) || IsWebSpace(c)
  }

  function WebTrim(s: string): string {
    TrimBy(s, IsWebSpace)
  }

  predicate Has(s: string, c: char) {
    exists i :: 0 <= i < |s| && s[i] == c
  }

  lemma {:induction false} TrimStartKeeps(s: string, space: char -> bool, c: char)
    requires Has(s, c) && !space(c)
    ensures Has(TrimStart(s, space), c)
  {
    if space(s[0]) {
      var i :| 0 <= i < |s| && s[i] == c;
      assert s[1..][i - 1] == c;
      TrimStartKeeps(s[1..], space, c);
    }
  }

  lemma {:induction false} TrimEndKeeps(s: string, space: char -> bool, c: char)
    requires Has(s, c) && !space(c)
    ensures Has(TrimEnd(s, space), c)
    decreases |s|
  {
    if space(s[|s| - 1]) {
      var i :| 0 <= i < |s| && s[i] == c;
      assert s[..|s| - 1][i] == c;
      TrimEndKeeps(s[..|s| - 1], space, c);
    }
  }

  /** Spaces of the first kind in a string are spaces of the second kind. */
  ghost predicate SpacesWithin(s: string, p: char -> bool, q: char -> bool) {
    forall i :: 0 <= i < |s| && p(s[i]) ==> q(s[i])
  }

  lemma {:induction false} TrimStartMore(s: string, p: char -> bool, q: char -> bool)
    requires SpacesWithin(s, p, q)
    requires TrimStart(s, p) != "" && !q(TrimStart(s, p)[0])
    ensures TrimStart(s, q) == TrimStart(s, p)
  {
    if p(s[0]) { TrimStartMore(s[1..], p, q); }
  }

  lemma {:induction false} TrimEndMore(s: string, p: char -> bool, q: char -> bool)
    requires SpacesWithin(s, p, q)
    requires TrimEnd(s, p) != "" && !q(TrimEnd(s, p)[|TrimEnd(s, p)| - 1])
    ensures TrimEnd(s, q) == TrimEnd(s, p)
    decreases |s|
  {
    if p(s[|s| - 1]) { TrimEndMore(s[..|s| - 1], p, q); }
  }

  lemma {:induction false} TrimEndPrefix(s: string, p: char -> bool)
    ensures |TrimEnd(s, p)| <= |s| && TrimEnd(s, p) == s[..|TrimEnd(s, p)|]
    decreases |s|
  {
    if s != "" && p(s[|s| - 1]) { TrimEndPrefix(s[..|s| - 1], p); }
  }

  lemma {:induction false} TrimStartSuffix(s: string, p: char -> bool)
    ensures |TrimStart(s, p)| <= |s| && TrimStart(s, p) == s[|s| - |TrimStart(s, p)|..]
  {
    if s != "" && p(s[0]) { TrimStartSuffix(s[1..], p); }
  }

  /** Trimming more kinds of space changes nothing if what is left neither starts nor ends with one. */
  lemma TrimMore(s: string, p: char -> bool, q: char -> bool)
    requires SpacesWithin(s, p, q)
    requires var t := TrimBy(s, p); t != "" && !q(t[0]) && !q(t[|t| - 1])
    ensures TrimBy(s, q) == TrimBy(s, p)
  {
    var u := TrimStart(s, p);
    TrimStartSuffix(s, p);
    TrimEndPrefix(u, p);
    TrimStartMore(s, p, q);
    TrimEndMore(u, p, q);
  }

  /** A valid address is ASCII and does not start or end with a space of either kind. */
  lemma ValidEnds(t: string)
    requires IsValid(t)
    ensures t != "" && Ascii(t)
    ensures !IsEitherSpace(t[0]) && !IsEitherSpace(t[|t| - 1])
  {
    hide Regex.Matches, Local, Domain, Pattern;
    PatternIsAscii(t);
    PatternMatches(t);
    var parts := Split(t, '@');
    JoinSplit(t, '@');
    assert t == parts[0] + "@" + parts[1];
    LocalMatches(parts[0]);
    DomainCharacters(parts[1]);
  }

  /** If one trimming leaves a valid address, so does any other that removes at least the spaces of this string. */
  lemma AgreeWithout(email: string, p: char -> bool, q: char -> bool)
    requires IsValid(TrimBy(email, p)) && SpacesWithin(email, p, q)
    requires q == IsWhiteSpace || q == IsWebSpace || q == IsEitherSpace
    ensures TrimBy(email, q) == TrimBy(email, p)
  {
    hide IsValid;
    ValidEnds(TrimBy(email, p));
    TrimMore(email, p, q);
  }

  lemma InvalidWith(email: string, p: char -> bool, c: char)
    requires Has(email, c) && !p(c) && c as int >= 0x80
    ensures !IsValid(TrimBy(email, p))
  {
    TrimStartKeeps(email, p, c);
    TrimEndKeeps(TrimStart(email, p), p, c);
    if IsValid(TrimBy(email, p)) { ValidEnds(TrimBy(email, p)); }
  }

  /**
   The two programs agree on exactly the strings that are no address even without every space either
   one removes, or that hold both or neither of the characters only one of them removes.
   */
  lemma AgreeExactlyWhen(email: string)
    ensures (IsValid(Trim(email)) <==> IsValid(WebTrim(email)))
       <==> !IsValid(TrimBy(email, IsEitherSpace)) || (Has(email, NO_BREAK) <==> Has(email, NEXT_LINE))
  {
    hide IsValid;
    if Has(email, NO_BREAK) { InvalidWith(email, IsWhiteSpace, NO_BREAK); }
    if Has(email, NEXT_LINE) { InvalidWith(email, IsWebSpace, NEXT_LINE); }
    if IsValid(Trim(email)) { AgreeWithout(email, IsWhiteSpace, IsEitherSpace); }
    if IsValid(WebTrim(email)) { AgreeWithout(email, IsWebSpace, IsEitherSpace); }
    if IsValid(TrimBy(email, IsEitherSpace)) {
      if !Has(email, NO_BREAK) { AgreeWithout(email, IsEitherSpace, IsWhiteSpace); }
      if !Has(email, NEXT_LINE) { AgreeWithout(email, IsEitherSpace, IsWebSpace); }
    }
  }

  /** A string with neither character never divides them. */
  lemma AgreeWithoutEither(email: string)
    requires !Has(email, NO_BREAK) && !Has(email, NEXT_LINE)
    ensures IsValid(Trim(email)) <==> IsValid(WebTrim(email))
  {
    AgreeExactlyWhen(email);
  }

  /** They do disagree: behind U+FEFF every valid address is accepted by one and refused by the other. */
  lemma DisagreeBehindMark(address: string)
    requires IsValid(address)
    ensures IsValid(WebTrim([NO_BREAK] + address)) && !IsValid(Trim([NO_BREAK] + address))
  {
    hide IsValid;
    var email := [NO_BREAK] + address;
    ValidEnds(address);
    assert email[0] == NO_BREAK;
    assert email[1..] == address;
    assert TrimStart(email, IsWebSpace) == TrimStart(address, IsWebSpace) == address;
    assert TrimEnd(address, IsWebSpace) == address;
    InvalidWith(email, IsWhiteSpace, NO_BREAK);
  }
}
