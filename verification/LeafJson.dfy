/**
 The canonical JSON of a leaf, as JSON.stringify writes it: fields in a fixed order, strings with escapes
 and numbers in decimal. Different valid leaves are written out differently.
 */
module LeafJson {
  import opened Text
  import opened Utf8
  import opened Leaves
  import opened DocumentSet
  import Decimal
  import Hex

  /** How page dimensions are written; how a floating-point number is printed is left open. */
  type Numerals = Double -> string

  /** Different dimensions are written differently, without the characters that end a value. */
  ghost predicate IsNumerals(numerals: Numerals) {
    && (forall x: Double, y: Double ::
          IsPageDimension(x) && IsPageDimension(y) && numerals(x) == numerals(y) ==> x == y)
    && (forall x: Double :: Without(numerals(x), ',') && Without(numerals(x), '}'))
  }

  function EscapeChar(c: char): (s: string)
    ensures s != "" && s[0] != '"'
  {
    var v := c as int;
    if c == '"' then "\\\""
    else if c == '\\' then "\\\\"
    else if v == 8 then "\\b"
    else if v == 9 then "\\t"
    else if v == 10 then "\\n"
    else if v == 12 then "\\f"
    else if v == 13 then "\\r"
    else if v < 0x20 then "\\u00" + [Hex.HexDigit(v / 16), Hex.HexDigit(v % 16)]
    else [c]
  }

  function Escape(s: string): string {
    if s == "" then "" else EscapeChar(s[0]) + Escape(s[1..])
  }

  function Quote(s: string): string {
    "\"" + Escape(s) + "\""
  }

  function Integer(n: int): string {
    if n < 0 then "-" + Decimal.Show(-n) else Decimal.Show(n)
  }

  /** A named value and what follows it. */
  function Entry(name: string, value: string, rest: string): string {
    "\"" + name + "\":" + value + rest
  }

  function MarkdownTail(leaf: Leaf): string
    requires leaf.Markdown?
  {
    "," + Entry("title", Quote(leaf.title),
      "," + Entry("path", Quote(leaf.path), "," + Entry("contentSha256", Quote(leaf.contentSha256), "}")))
  }

  function PdfTail(leaf: Leaf, numerals: Numerals): string
    requires leaf.Pdf?
  {
    "," + Entry("title", Quote(leaf.title),
      "," + Entry("sha256", Quote(leaf.sha256),
        "," + Entry("byteSize", Integer(leaf.byteSize),
          "," + Entry("pageCount", Integer(leaf.pageCount),
            "," + Entry("pageWidth", numerals(leaf.pageWidth),
              "," + Entry("pageHeight", numerals(leaf.pageHeight), "}"))))))
  }

  function KindName(leaf: Leaf): string {
    if leaf.Markdown? then "markdown" else "pdf"
  }

  function Tail(leaf: Leaf, numerals: Numerals): (s: string)
    ensures s != "" && s[0] == ','
  {
    if leaf.Markdown? then MarkdownTail(leaf) else PdfTail(leaf, numerals)
  }

  /** The fields every leaf has, and what follows them. */
  function Head(id: string, position: int, kind: string, rest: string): string {
    "{" + Entry("id", Quote(id), "," + Entry("position", Integer(position), "," + Entry("kind", Quote(kind), rest)))
  }

  function CanonicalLeafJson(leaf: Leaf, numerals: Numerals): string {
    Head(leaf.id, leaf.position, KindName(leaf), Tail(leaf, numerals))
  }

  datatype Member = Member(name: string, value: string)

  /** A JSON object: its members in order, between braces and with commas. */
  function Object(members: seq<Member>): string {
    "{" + Join(ShowMembers(members), ",") + "}"
  }

  function ShowMembers(members: seq<Member>): (shown: seq<string>)
    ensures |shown| == |members|
    ensures forall i :: 0 <= i < |members| ==> shown[i] == "\"" + members[i].name + "\":" + members[i].value
  {
    seq(|members|, i requires 0 <= i < |members| => "\"" + members[i].name + "\":" + members[i].value)
  }

  /** The JSON of a Markdown leaf is the object of these six members. */
  lemma MarkdownJsonIs(leaf: Leaf, numerals: Numerals)
    requires leaf.Markdown?
    ensures CanonicalLeafJson(leaf, numerals)
         == Object([Member("id", Quote(leaf.id)), Member("position", Integer(leaf.position)),
                    Member("kind", "\"markdown\""), Member("title", Quote(leaf.title)),
                    Member("path", Quote(leaf.path)),
                    Member("contentSha256", Quote(leaf.contentSha256))])
  {
    PlainQuotes();
    hide Quote, Integer, Entry;
    var members := [Member("id", Quote(leaf.id)), Member("position", Integer(leaf.position)),
                    Member("kind", "\"markdown\""), Member("title", Quote(leaf.title)),
                    Member("path", Quote(leaf.path)),
                    Member("contentSha256", Quote(leaf.contentSha256))];
    EntriesAreMembers(members);
    hide Entries;
    EntriesStep(members, 0);
    EntriesStep(members, 1);
    EntriesStep(members, 2);
    EntriesStep(members, 3);
    EntriesStep(members, 4);
    LastEntry(members);
    assert Entries(members, 3) == Tail(leaf, numerals)[1..];
  }

  /** The JSON of a PDF leaf is the object of these nine members. */
  lemma PdfJsonIs(leaf: Leaf, numerals: Numerals)
    requires leaf.Pdf?
    ensures CanonicalLeafJson(leaf, numerals)
         == Object([Member("id", Quote(leaf.id)), Member("position", Integer(leaf.position)), Member("kind", "\"pdf\""),
                    Member("title", Quote(leaf.title)), Member("sha256", Quote(leaf.sha256)),
                    Member("byteSize", Integer(leaf.byteSize)), Member("pageCount", Integer(leaf.pageCount)),
                    Member("pageWidth", numerals(leaf.pageWidth)), Member("pageHeight", numerals(leaf.pageHeight))])
  {
    PlainQuotes();
    hide Quote, Integer, Entry;
    var members := [Member("id", Quote(leaf.id)), Member("position", Integer(leaf.position)), Member("kind", "\"pdf\""),
                    Member("title", Quote(leaf.title)), Member("sha256", Quote(leaf.sha256)),
                    Member("byteSize", Integer(leaf.byteSize)), Member("pageCount", Integer(leaf.pageCount)),
                    Member("pageWidth", numerals(leaf.pageWidth)), Member("pageHeight", numerals(leaf.pageHeight))];
    EntriesAreMembers(members);
    hide Entries;
    EntriesStep(members, 0);
    EntriesStep(members, 1);
    EntriesStep(members, 2);
    EntriesStep(members, 3);
    EntriesStep(members, 4);
    EntriesStep(members, 5);
    EntriesStep(members, 6);
    EntriesStep(members, 7);
    LastEntry(members);
    assert Entries(members, 3) == Tail(leaf, numerals)[1..];
  }

  lemma PlainQuotes()
    ensures Quote("markdown") == "\"markdown\"" && Quote("pdf") == "\"pdf\""
  {
    hide Escape;
    var markdown, pdf := "markdown", "pdf";
    PlainEscape(markdown);
    PlainEscape(pdf);
  }

  lemma {:induction false} PlainEscape(s: string)
    requires forall i :: 0 <= i < |s| ==> s[i] as int >= 0x20 && s[i] != '"' && s[i] != '\\'
    ensures Escape(s) == s
  {
    if s != "" { PlainEscape(s[1..]); }
  }

  /** Members from one on, each followed by the rest, the last one by the closing brace. */
  function Entries(members: seq<Member>, k: nat): string
    requires k < |members|
    decreases |members| - k
  {
    Entry(members[k].name, members[k].value, if k == |members| - 1 then "}" else "," + Entries(members, k + 1))
  }

  lemma EntriesStep(members: seq<Member>, k: nat)
    requires k + 1 < |members|
    ensures Entries(members, k) == Entry(members[k].name, members[k].value, "," + Entries(members, k + 1))
  {
  }

  lemma LastEntry(members: seq<Member>)
    requires members != []
    ensures var last := members[|members| - 1]; Entries(members, |members| - 1) == Entry(last.name, last.value, "}")
  {
  }

  lemma {:induction false} JoinedEntries(members: seq<Member>, k: nat)
    requires k < |members|
    ensures Entries(members, k) == Join(ShowMembers(members)[k..], ",") + "}"
    decreases |members| - k
  {
    var shown := ShowMembers(members);
    assert shown[k..][0] == shown[k] && shown[k..][1..] == shown[k + 1..];
    if k < |members| - 1 {
      JoinedEntries(members, k + 1);
      var rest := Join(shown[k + 1..], ",");
      assert shown[k] + ("," + (rest + "}")) == (shown[k] + "," + rest) + "}";
    }
  }

  lemma EntriesAreMembers(members: seq<Member>)
    requires members != []
    ensures "{" + Entries(members, 0) == Object(members)
  {
    hide Entries, ShowMembers, Join;
    JoinedEntries(members, 0);
    assert ShowMembers(members)[0..] == ShowMembers(members);
  }

  /** The bytes that are hashed for a leaf. */
  function LeafBytes(leaf: Leaf, numerals: Numerals): seq<byte> {
    Encode(CanonicalLeafJson(leaf, numerals))
  }

  // ----- Reading a value off the front -----

  lemma CutPrefix(p: string, u: string, v: string)
    requires p + u == p + v
    ensures u == v
  {
    assert (p + u)[|p|..] == u && (p + v)[|p|..] == v;
  }

  function UnescapeLetter(letter: char): char {
    if letter == 'b' then 8 as char
    else if letter == 't' then '\t'
    else if letter == 'n' then '\n'
    else if letter == 'f' then 12 as char
    else if letter == 'r' then '\r'
    else letter
  }

  /** The first character of an escaped text and the length of its escape. */
  function ReadEscape(s: string): (char, nat)
    requires s != ""
  {
    if s[0] != '\\' || |s| < 2 then (s[0], 1)
    else if s[1] != 'u' then (UnescapeLetter(s[1]), 2)
    else if |s| < 6 || !IsLowerHex(s[4]) || !IsLowerHex(s[5]) then (s[0], 1)
    else ((Hex.HexValue(s[4]) * 16 + Hex.HexValue(s[5])) as char, 6)
  }

  lemma ReadEscaped(c: char, u: string)
    ensures ReadEscape(EscapeChar(c) + u) == (c, |EscapeChar(c)|)
  {
    var x := EscapeChar(c);
    var s := x + u;
    assert s[0] == x[0];
    if |x| > 1 { assert s[1] == x[1]; }
    if |x| == 6 { assert s[4] == x[4] && s[5] == x[5]; }
  }

  /** No escape is the start of another one. */
  lemma CutEscape(c: char, d: char, u: string, v: string)
    requires EscapeChar(c) + u == EscapeChar(d) + v
    ensures c == d && u == v
  {
    hide EscapeChar, ReadEscape;
    ReadEscaped(c, u);
    ReadEscaped(d, v);
    CutPrefix(EscapeChar(c), u, v);
  }

  lemma {:induction false} CutEscaped(a: string, b: string, u: string, v: string)
    requires Escape(a) + ("\"" + u) == Escape(b) + ("\"" + v)
    ensures a == b && u == v
    decreases |a|
  {
    hide EscapeChar;
    var q, r := "\"" + u, "\"" + v;
    QuoteComesFirst(a, u);
    QuoteComesFirst(b, v);
    if a == "" && b == "" {
      assert Escape(a) + q == q && Escape(b) + r == r;
      CutPrefix("\"", u, v);
    } else if a != "" && b != "" {
      assert Escape(a) + q == EscapeChar(a[0]) + (Escape(a[1..]) + q);
      assert Escape(b) + r == EscapeChar(b[0]) + (Escape(b[1..]) + r);
      CutEscape(a[0], b[0], Escape(a[1..]) + q, Escape(b[1..]) + r);
      CutEscaped(a[1..], b[1..], u, v);
      assert a == [a[0]] + a[1..] && b == [b[0]] + b[1..];
    }
  }

  lemma QuoteComesFirst(s: string, rest: string)
    ensures (Escape(s) + ("\"" + rest))[0] == '"' <==> s == ""
  {
    hide EscapeChar;
    if s == "" {
      assert Escape(s) + ("\"" + rest) == "\"" + rest;
    } else {
      assert Escape(s)[0] == EscapeChar(s[0])[0];
    }
  }

  lemma CutQuoted(a: string, b: string, u: string, v: string)
    requires Quote(a) + u == Quote(b) + v
    ensures a == b && u == v
  {
    hide Escape;
    assert Quote(a) + u == "\"" + (Escape(a) + ("\"" + u));
    assert Quote(b) + v == "\"" + (Escape(b) + ("\"" + v));
    CutPrefix("\"", Escape(a) + ("\"" + u), Escape(b) + ("\"" + v));
    CutEscaped(a, b, u, v);
  }

  lemma CutInteger(m: nat, n: nat, u: string, v: string)
    requires u != "" && v != "" && !Decimal.IsDigit(u[0]) && !Decimal.IsDigit(v[0])
    requires Integer(m) + u == Integer(n) + v
    ensures m == n && u == v
  {
    hide Decimal.Show, Decimal.ReadNat;
    Decimal.ReadShow(m, u);
    Decimal.ReadShow(n, v);
  }

  predicate EndsValue(c: char) {
    c == ',' || c == '}'
  }

  /** Where a value ends. */
  function ValueEnd(s: string): nat {
    if s == "" || EndsValue(s[0]) then 0 else 1 + ValueEnd(s[1..])
  }

  lemma {:induction false} ValueEndIs(x: string, u: string)
    requires forall i :: 0 <= i < |x| ==> !EndsValue(x[i])
    requires u != "" && EndsValue(u[0])
    ensures ValueEnd(x + u) == |x|
  {
    if x == "" {
      assert x + u == u;
    } else {
      assert (x + u)[0] == x[0] && (x + u)[1..] == x[1..] + u;
      ValueEndIs(x[1..], u);
    }
  }

  lemma CutNumeral(x: string, y: string, u: string, v: string)
    requires forall i :: 0 <= i < |x| ==> !EndsValue(x[i])
    requires forall i :: 0 <= i < |y| ==> !EndsValue(y[i])
    requires u != "" && v != "" && EndsValue(u[0]) && EndsValue(v[0])
    requires x + u == y + v
    ensures x == y && u == v
  {
    ValueEndIs(x, u);
    ValueEndIs(y, v);
    assert (x + u)[..|x|] == x && (y + v)[..|x|] == y;
    CutPrefix(x, u, v);
  }

  lemma CutName(before: string, name: string, value: string, rest: string, value': string, rest': string)
    requires before + Entry(name, value, rest) == before + Entry(name, value', rest')
    ensures value + rest == value' + rest'
  {
    var p := before + "\"" + name + "\":";
    assert before + Entry(name, value, rest) == p + (value + rest);
    assert before + Entry(name, value', rest') == p + (value' + rest');
    CutPrefix(p, value + rest, value' + rest');
  }

  /** A quoted entry is read off with what follows it. */
  lemma CutQuotedEntry(before: string, name: string, a: string, u: string, b: string, v: string)
    requires before + Entry(name, Quote(a), u) == before + Entry(name, Quote(b), v)
    ensures a == b && u == v
  {
    hide Entry, Quote;
    CutName(before, name, Quote(a), u, Quote(b), v);
    CutQuoted(a, b, u, v);
  }

  lemma CutIntegerEntry(before: string, name: string, m: nat, u: string, n: nat, v: string)
    requires u != "" && v != "" && EndsValue(u[0]) && EndsValue(v[0])
    requires before + Entry(name, Integer(m), u) == before + Entry(name, Integer(n), v)
    ensures m == n && u == v
  {
    hide Entry, Integer;
    CutName(before, name, Integer(m), u, Integer(n), v);
    CutInteger(m, n, u, v);
  }

  lemma CutNumeralEntry(before: string, name: string, x: Double, u: string, y: Double, v: string, numerals: Numerals)
    requires IsNumerals(numerals) && IsPageDimension(x) && IsPageDimension(y)
    requires u != "" && v != "" && EndsValue(u[0]) && EndsValue(v[0])
    requires before + Entry(name, numerals(x), u) == before + Entry(name, numerals(y), v)
    ensures x == y && u == v
  {
    hide Entry;
    CutName(before, name, numerals(x), u, numerals(y), v);
    CutNumeral(numerals(x), numerals(y), u, v);
  }

  // ----- The whole leaf -----

  /** Every number of a valid leaf is written as a natural number. */
  lemma ValidNumbers(leaf: Leaf)
    requires LeafFault(leaf).None?
    ensures leaf.position >= 0
    ensures leaf.Pdf? ==> leaf.byteSize >= 0 && leaf.pageCount >= 0
    ensures leaf.Pdf? ==> IsPageDimension(leaf.pageWidth) && IsPageDimension(leaf.pageHeight)
  {
    hide IsUuidV7, IsTitle, IsMarkdownPath, IsSha256;
  }

  lemma MarkdownTailInjective(a: Leaf, b: Leaf)
    requires a.Markdown? && b.Markdown? && MarkdownTail(a) == MarkdownTail(b)
    ensures a.title == b.title && a.path == b.path && a.contentSha256 == b.contentSha256
  {
    hide Entry, Quote;
    var a2 := Entry("contentSha256", Quote(a.contentSha256), "}");
    var b2 := Entry("contentSha256", Quote(b.contentSha256), "}");
    var a1, b1 := Entry("path", Quote(a.path), "," + a2), Entry("path", Quote(b.path), "," + b2);
    CutQuotedEntry(",", "title", a.title, "," + a1, b.title, "," + b1);
    CutQuotedEntry(",", "path", a.path, "," + a2, b.path, "," + b2);
    CutQuotedEntry(",", "contentSha256", a.contentSha256, "}", b.contentSha256, "}");
  }

  lemma PdfTailInjective(a: Leaf, b: Leaf, numerals: Numerals)
    requires IsNumerals(numerals) && a.Pdf? && b.Pdf? && LeafFault(a).None? && LeafFault(b).None?
    requires PdfTail(a, numerals) == PdfTail(b, numerals)
    ensures a.title == b.title && a.sha256 == b.sha256 && a.byteSize == b.byteSize && a.pageCount == b.pageCount
    ensures a.pageWidth == b.pageWidth && a.pageHeight == b.pageHeight
  {
    hide Entry, Quote, Integer, IsNumerals, LeafFault, IsPageDimension;
    ValidNumbers(a);
    ValidNumbers(b);
    var a5, b5 := Entry("pageHeight", numerals(a.pageHeight), "}"), Entry("pageHeight", numerals(b.pageHeight), "}");
    var a4 := Entry("pageWidth", numerals(a.pageWidth), "," + a5);
    var b4 := Entry("pageWidth", numerals(b.pageWidth), "," + b5);
    var a3 := Entry("pageCount", Integer(a.pageCount), "," + a4);
    var b3 := Entry("pageCount", Integer(b.pageCount), "," + b4);
    var a2, b2 := Entry("byteSize", Integer(a.byteSize), "," + a3), Entry("byteSize", Integer(b.byteSize), "," + b3);
    var a1, b1 := Entry("sha256", Quote(a.sha256), "," + a2), Entry("sha256", Quote(b.sha256), "," + b2);
    CutQuotedEntry(",", "title", a.title, "," + a1, b.title, "," + b1);
    CutQuotedEntry(",", "sha256", a.sha256, "," + a2, b.sha256, "," + b2);
    CutIntegerEntry(",", "byteSize", a.byteSize, "," + a3, b.byteSize, "," + b3);
    CutIntegerEntry(",", "pageCount", a.pageCount, "," + a4, b.pageCount, "," + b4);
    CutNumeralEntry(",", "pageWidth", a.pageWidth, "," + a5, b.pageWidth, "," + b5, numerals);
    CutNumeralEntry(",", "pageHeight", a.pageHeight, "}", b.pageHeight, "}", numerals);
  }

  /** Id, position and kind are read off the front. */
  lemma HeadInjective(id: string, p: nat, kind: string, s: string, id': string, p': nat, kind': string, s': string)
    requires s != "" && s' != "" && EndsValue(s[0]) && EndsValue(s'[0])
    requires Head(id, p, kind, s) == Head(id', p', kind', s')
    ensures id == id' && p == p' && kind == kind' && s == s'
  {
    hide Entry, Quote, Integer;
    var k, k' := Entry("kind", Quote(kind), s), Entry("kind", Quote(kind'), s');
    var q, q' := Entry("position", Integer(p), "," + k), Entry("position", Integer(p'), "," + k');
    CutQuotedEntry("{", "id", id, "," + q, id', "," + q');
    CutIntegerEntry(",", "position", p, "," + k, p', "," + k');
    CutQuotedEntry(",", "kind", kind, s, kind', s');
  }

  lemma KindNameInjective(a: Leaf, b: Leaf)
    requires KindName(a) == KindName(b)
    ensures a.Markdown? == b.Markdown?
  {
    assert "markdown"[0] != "pdf"[0];
  }

  lemma TailEnds(leaf: Leaf, numerals: Numerals)
    ensures Tail(leaf, numerals) != "" && EndsValue(Tail(leaf, numerals)[0])
  {
    hide Tail;
  }

  lemma TailInjective(a: Leaf, b: Leaf, numerals: Numerals)
    requires IsNumerals(numerals) && LeafFault(a).None? && LeafFault(b).None?
    requires a.id == b.id && a.position == b.position && a.Markdown? == b.Markdown?
    requires Tail(a, numerals) == Tail(b, numerals)
    ensures a == b
  {
    hide IsNumerals, LeafFault, MarkdownTail, PdfTail;
    if a.Markdown? {
      MarkdownTailInjective(a, b);
    } else {
      PdfTailInjective(a, b, numerals);
    }
  }

  /** Different valid leaves have different JSON. */
  lemma JsonInjective(a: Leaf, b: Leaf, numerals: Numerals)
    requires IsNumerals(numerals) && LeafFault(a).None? && LeafFault(b).None?
    requires CanonicalLeafJson(a, numerals) == CanonicalLeafJson(b, numerals)
    ensures a == b
  {
    hide Head, IsNumerals, LeafFault, Tail, KindName, IsPageDimension;
    ValidNumbers(a);
    ValidNumbers(b);
    TailEnds(a, numerals);
    TailEnds(b, numerals);
    HeadInjective(a.id, a.position, KindName(a), Tail(a, numerals), b.id, b.position, KindName(b), Tail(b, numerals));
    KindNameInjective(a, b);
    TailInjective(a, b, numerals);
  }

  /** Different valid leaves are hashed as different bytes. */
  lemma LeafBytesInjective(a: Leaf, b: Leaf, numerals: Numerals)
    requires IsNumerals(numerals) && LeafFault(a).None? && LeafFault(b).None?
    requires LeafBytes(a, numerals) == LeafBytes(b, numerals)
    ensures a == b
  {
    hide CanonicalLeafJson, LeafFault, Encode;
    DecodeEncode(CanonicalLeafJson(a, numerals));
    DecodeEncode(CanonicalLeafJson(b, numerals));
    JsonInjective(a, b, numerals);
  }

  // ----- Dimensions can be written like that -----

  ghost function SomeExponent(x: Double): (e: int)
    ensures exists m :: IsDoubleAs(x, m, e)
  {
    assert IsDouble(x);
    var m: int, e: int :| IsDoubleAs(x, m, e);
    e
  }

  ghost function SomeSignificand(x: Double): (m: int)
    ensures IsDoubleAs(x, m, SomeExponent(x))
  {
    var m: int :| IsDoubleAs(x, m, SomeExponent(x));
    m
  }

  function ShowExponent(e: int): string {
    if e < 0 then "d" + Decimal.Show(-e) else "e" + Decimal.Show(e)
  }

  /** A number as the digits of its significand, a letter for the sign of its exponent, and the exponent's digits. */
  ghost function Written(x: Double): string {
    var m := SomeSignificand(x);
    (if m < 0 then "" else Decimal.Show(m)) + ShowExponent(SomeExponent(x))
  }

  lemma SignificandPositive(x: Double)
    requires x > 0.0
    ensures SomeSignificand(x) >= 0
  {
    TwoToPositive(SomeExponent(x));
    FactorPositive(SomeSignificand(x) as real, TwoTo(SomeExponent(x)));
  }

  lemma FactorPositive(a: real, t: real)
    requires t > 0.0 && a * t > 0.0
    ensures a > 0.0
  {
  }

  lemma {:induction false} TwoToPositive(e: int)
    ensures TwoTo(e) > 0.0
    decreases if e >= 0 then e else -e
  {
    if e > 0 { TwoToPositive(e - 1); } else if e < 0 { TwoToPositive(e + 1); }
  }

  lemma ExponentInjective(e: int, f: int)
    requires ShowExponent(e) == ShowExponent(f)
    ensures e == f
  {
    hide Decimal.Show, Decimal.ReadNat;
    var m: nat, n: nat := if e < 0 then -e else e, if f < 0 then -f else f;
    assert ShowExponent(e)[0] == ShowExponent(f)[0];
    assert ShowExponent(e)[1..] == Decimal.Show(m) && ShowExponent(f)[1..] == Decimal.Show(n);
    Decimal.ReadShow(m, "");
    Decimal.ReadShow(n, "");
  }

  lemma ExponentStarts(e: int)
    ensures ShowExponent(e) != "" && !Decimal.IsDigit(ShowExponent(e)[0])
  {
  }

  lemma PartsInjective(m: nat, e: int, n: nat, f: int)
    requires Decimal.Show(m) + ShowExponent(e) == Decimal.Show(n) + ShowExponent(f)
    ensures m == n && e == f
  {
    hide Decimal.Show, Decimal.ReadNat, ShowExponent;
    ExponentStarts(e);
    ExponentStarts(f);
    Decimal.ReadShow(m, ShowExponent(e));
    Decimal.ReadShow(n, ShowExponent(f));
    ExponentInjective(e, f);
  }

  lemma SameParts(x: real, y: real, m: int, e: int)
    requires IsDoubleAs(x, m, e) && IsDoubleAs(y, m, e)
    ensures x == y
  {
  }

  lemma WrittenInjective(x: Double, y: Double)
    requires x > 0.0 && y > 0.0 && Written(x) == Written(y)
    ensures x == y
  {
    hide Decimal.Show, SomeSignificand, SomeExponent, ShowExponent, IsDoubleAs;
    SignificandPositive(x);
    SignificandPositive(y);
    PartsInjective(SomeSignificand(x), SomeExponent(x), SomeSignificand(y), SomeExponent(y));
    SameParts(x, y, SomeSignificand(x), SomeExponent(x));
  }

  lemma WrittenWithout(x: Double)
    ensures Without(Written(x), ',') && Without(Written(x), '}')
  {
    hide Decimal.Show, SomeSignificand, SomeExponent;
    var m, e := SomeSignificand(x), SomeExponent(x);
    var digits := if m < 0 then "" else Decimal.Show(m);
    var exponent := Decimal.Show(if e < 0 then -e else e);
    assert forall i :: 0 <= i < |digits| ==> Decimal.IsDigit(digits[i]);
    assert forall i :: 0 <= i < |exponent| ==> Decimal.IsDigit(exponent[i]);
  }

  /** The demand on numerals can be met, since dimensions are doubles. */
  lemma NumeralsExist()
    ensures exists numerals: Numerals :: IsNumerals(numerals)
  {
    hide Written;
    ghost var numerals: Numerals := (x: Double) => Written(x);
    forall x: Double, y: Double | IsPageDimension(x) && IsPageDimension(y) && numerals(x) == numerals(y)
      ensures x == y
    {
      WrittenInjective(x, y);
    }
    forall x: Double
      ensures Without(numerals(x), ',') && Without(numerals(x), '}')
    {
      WrittenWithout(x);
    }
    assert IsNumerals(numerals);
  }
}
