/**
 UTF-8 (section 3 of RFC 3629): the byte length of a text, a strict decoder, and truncation to a byte
 budget without cutting a character.
 */
module Utf8 {
  import opened Wrappers

  newtype byte = x: int | 0 <= x < 256

  /** The bytes of one character. */
  function EncodeChar(c: char): (b: seq<byte>)
    ensures 1 <= |b| <= 4
  {
    var v := c as int;
    if v < 0x80 then [v as byte]
    else if v < 0x800 then [(0xC0 + v / 64) as byte, (0x80 + v % 64) as byte]
    else if v < 0x1_0000 then
      [(0xE0 + v / 4096) as byte, (0x80 + v / 64 % 64) as byte, (0x80 + v % 64) as byte]
    else
      [(0xF0 + v / 262144) as byte, (0x80 + v / 4096 % 64) as byte, (0x80 + v / 64 % 64) as byte,
       (0x80 + v % 64) as byte]
  }

  function Encode(text: string): seq<byte> {
    if text == "" then [] else EncodeChar(text[0]) + Encode(text[1..])
  }

  function Utf8ByteLength(text: string): nat {
    |Encode(text)|
  }

  predicate IsContinuation(b: byte) {
    0x80 <= b < 0xC0
  }

  /** How many bytes a character takes, from its first byte; none if no character starts with it. */
  function CharLength(first: byte): (n: nat)
    ensures n <= 4
  {
    if first < 0x80 then 1
    else if 0xC2 <= first < 0xE0 then 2
    else if 0xE0 <= first < 0xF0 then 3
    else if 0xF0 <= first < 0xF5 then 4
    else 0
  }

  predicate IsScalar(v: int) {
    0 <= v < 0xD800 || 0xE000 <= v < 0x11_0000
  }

  /** The first character of a byte string, if the string starts with a well-formed one. */
  function DecodeChar(b: seq<byte>): Option<char> {
    if b == [] then None
    else
      var n := CharLength(b[0]);
      if n == 0 || |b| < n || !(forall i :: 1 <= i < n ==> IsContinuation(b[i])) then None
      else
        var v :=
          if n == 1 then b[0] as int
          else if n == 2 then (b[0] as int - 0xC0) * 64 + (b[1] as int - 0x80)
          else if n == 3 then (b[0] as int - 0xE0) * 4096 + (b[1] as int - 0x80) * 64 + (b[2] as int - 0x80)
          else (b[0] as int - 0xF0) * 262144 + (b[1] as int - 0x80) * 4096 + (b[2] as int - 0x80) * 64
               + (b[3] as int - 0x80);
        var least := if n == 1 then 0 else if n == 2 then 0x80 else if n == 3 then 0x800 else 0x1_0000;
        if v < least || !IsScalar(v) then None else Some(v as char)
  }

  /** A decoder that fails on the first ill-formed or incomplete character. */
  function DecodeStrict(b: seq<byte>): Option<string> {
    if b == [] then Some("")
    else
      match DecodeChar(b)
      case None => None
      case Some(c) =>
        var n := CharLength(b[0]);
        match DecodeStrict(b[n..])
        case None => None
        case Some(rest) => Some([c] + rest)
  }

  const BYTE_ORDER_MARK: char := '\U{FEFF}'

  function StripByteOrderMark(text: string): string {
    if text != "" && text[0] == BYTE_ORDER_MARK then text[1..] else text
  }

  /** The platform's decoder in its fatal mode: strict, and it drops one leading byte order mark. */
  function DecodeFatal(b: seq<byte>): Option<string> {
    match DecodeStrict(b)
    case None => None
    case Some(text) => Some(StripByteOrderMark(text))
  }

  // ----- Encoding and decoding are inverse -----

  lemma EncodeCharLength(c: char)
    ensures CharLength(EncodeChar(c)[0]) == |EncodeChar(c)|
    ensures forall i :: 1 <= i < |EncodeChar(c)| ==> IsContinuation(EncodeChar(c)[i])
  {
  }

  lemma DecodeEncodeChar(c: char, rest: seq<byte>)
    ensures DecodeChar(EncodeChar(c) + rest) == Some(c)
  {
    hide DecodeChar, EncodeChar;
    var v := c as int;
    if v < 0x80 {
      DecodeOne(c, rest);
    } else if v < 0x800 {
      DecodeTwo(c, rest);
    } else if v < 0x1_0000 {
      DecodeThree(c, rest);
    } else {
      DecodeFour(c, rest);
    }
  }

  lemma DecodeOne(c: char, rest: seq<byte>)
    requires c as int < 0x80
    ensures DecodeChar(EncodeChar(c) + rest) == Some(c)
  {
  }

  lemma DecodeTwo(c: char, rest: seq<byte>)
    requires 0x80 <= c as int < 0x800
    ensures DecodeChar(EncodeChar(c) + rest) == Some(c)
  {
    var v := c as int;
    var b := EncodeChar(c) + rest;
    assert b[0] as int == 0xC0 + v / 64 && b[1] as int == 0x80 + v % 64;
    assert CharLength(b[0]) == 2;
  }

  lemma DecodeThree(c: char, rest: seq<byte>)
    requires 0x800 <= c as int < 0x1_0000
    ensures DecodeChar(EncodeChar(c) + rest) == Some(c)
  {
    var v := c as int;
    var b := EncodeChar(c) + rest;
    assert b[0] as int == 0xE0 + v / 4096 && b[1] as int == 0x80 + v / 64 % 64 && b[2] as int == 0x80 + v % 64;
    assert CharLength(b[0]) == 3;
    Digits64(v);
  }

  lemma DecodeFour(c: char, rest: seq<byte>)
    requires 0x1_0000 <= c as int
    ensures DecodeChar(EncodeChar(c) + rest) == Some(c)
  {
    var v := c as int;
    var b := EncodeChar(c) + rest;
    assert b[0] as int == 0xF0 + v / 262144 && b[1] as int == 0x80 + v / 4096 % 64;
    assert b[2] as int == 0x80 + v / 64 % 64 && b[3] as int == 0x80 + v % 64;
    assert CharLength(b[0]) == 4;
    Digits64(v);
  }

  lemma Digits64(v: int)
    requires v >= 0
    ensures v == v / 4096 * 4096 + v / 64 % 64 * 64 + v % 64
    ensures v / 4096 == v / 262144 * 64 + v / 4096 % 64
  {
    assert v == v / 64 * 64 + v % 64;
    assert v / 64 == v / 4096 * 64 + v / 64 % 64;
  }

  lemma {:induction false} DecodeEncode(text: string)
    ensures DecodeStrict(Encode(text)) == Some(text)
  {
    if text != "" {
      DecodeEncode(text[1..]);
      DecodeEncodeChar(text[0], Encode(text[1..]));
      EncodeCharLength(text[0]);
      assert Encode(text)[|EncodeChar(text[0])|..] == Encode(text[1..]);
      assert [text[0]] + text[1..] == text;
    }
  }

  lemma {:induction false} EncodeAppend(a: string, b: string)
    ensures Encode(a + b) == Encode(a) + Encode(b)
  {
    if a == "" {
      assert a + b == b;
    } else {
      assert (a + b)[1..] == a[1..] + b;
      EncodeAppend(a[1..], b);
    }
  }

  // ----- The longest prefix that fits a budget -----

  /** The longest prefix of whole characters of at most `maxBytes` bytes. */
  function Fit(text: string, maxBytes: int): string
    decreases |text|
  {
    if text == "" || |EncodeChar(text[0])| > maxBytes then ""
    else [text[0]] + Fit(text[1..], maxBytes - |EncodeChar(text[0])|)
  }

  /** It is a prefix, it fits, it falls short by less than a character, and no longer prefix fits. */
  lemma {:induction false} FitIsLongest(text: string, maxBytes: int)
    ensures |Fit(text, maxBytes)| <= |text| && Fit(text, maxBytes) == text[..|Fit(text, maxBytes)|]
    ensures maxBytes >= 0 ==> Utf8ByteLength(Fit(text, maxBytes)) <= maxBytes
    ensures Fit(text, maxBytes) != text ==> Utf8ByteLength(Fit(text, maxBytes)) > maxBytes - 4
    ensures Utf8ByteLength(text) <= maxBytes ==> Fit(text, maxBytes) == text
    ensures forall k :: 0 <= k <= |text| && Utf8ByteLength(text[..k]) <= maxBytes ==> k <= |Fit(text, maxBytes)|
    decreases |text|
  {
    if text == "" {
    } else if |EncodeChar(text[0])| > maxBytes {
      forall k | 0 < k <= |text|
        ensures Utf8ByteLength(text[..k]) > maxBytes
      {
        assert text[..k][0] == text[0];
      }
    } else {
      var left := maxBytes - |EncodeChar(text[0])|;
      FitIsLongest(text[1..], left);
      assert Fit(text, maxBytes)[1..] == Fit(text[1..], left);
      forall k | 0 <= k <= |text| && Utf8ByteLength(text[..k]) <= maxBytes
        ensures k <= |Fit(text, maxBytes)|
      {
        if k > 0 {
          assert text[..k][1..] == text[1..][..k - 1];
        }
      }
    }
  }

  /** A cut at `end` bytes falls between two characters. */
  predicate IsBoundary(text: string, end: nat) {
    Utf8ByteLength(Fit(text, end)) == end
  }

  /** Decoding a cut-off encoding succeeds exactly at character boundaries. */
  lemma {:induction false} DecodeCut(text: string, end: nat)
    requires end <= Utf8ByteLength(text)
    ensures DecodeStrict(Encode(text)[..end]) == if IsBoundary(text, end) then Some(Fit(text, end)) else None
    decreases |text|
  {
    if end > 0 {
      var first := EncodeChar(text[0]);
      var cut := Encode(text)[..end];
      EncodeCharLength(text[0]);
      assert cut[0] == first[0];
      if end >= |first| {
        var rest := Encode(text[1..])[..end - |first|];
        assert cut == first + rest;
        DecodeEncodeChar(text[0], rest);
        DecodeCut(text[1..], end - |first|);
        assert cut[|first|..] == rest;
        assert Fit(text, end)[1..] == Fit(text[1..], end - |first|);
      }
    }
  }

  lemma {:induction false} FitOfFit(text: string, maxBytes: int)
    requires maxBytes >= 0
    ensures Fit(text, Utf8ByteLength(Fit(text, maxBytes))) == Fit(text, maxBytes)
    decreases |text|
  {
    if text != "" && |EncodeChar(text[0])| <= maxBytes {
      FitOfFit(text[1..], maxBytes - |EncodeChar(text[0])|);
      assert Fit(text, maxBytes)[1..] == Fit(text[1..], maxBytes - |EncodeChar(text[0])|);
    }
  }

  /** Any boundary within the budget is at most the boundary the longest prefix ends at. */
  lemma {:induction false} BoundaryBelow(text: string, end: nat, maxBytes: nat)
    requires end <= maxBytes && IsBoundary(text, end)
    ensures end <= Utf8ByteLength(Fit(text, maxBytes))
    decreases |text|
  {
    if end > 0 {
      var n := |EncodeChar(text[0])|;
      assert Fit(text, end)[1..] == Fit(text[1..], end - n);
      assert Fit(text, maxBytes)[1..] == Fit(text[1..], maxBytes - n);
      BoundaryBelow(text[1..], end - n, maxBytes - n);
    }
  }

  /** What truncation returns. */
  function Truncated(text: string, maxBytes: int): string {
    if maxBytes <= 0 then ""
    else if Utf8ByteLength(text) <= maxBytes then text
    else StripByteOrderMark(Fit(text, maxBytes))
  }

  /** The cuts that are tried: none if the text fits, else down to the first at a character boundary, at most four. */
  function CutsTried(text: string, maxBytes: int): nat {
    if maxBytes <= 0 || Utf8ByteLength(text) <= maxBytes then 0
    else if Fit(text, maxBytes) != "" then Gap(maxBytes, Utf8ByteLength(Fit(text, maxBytes))) + 1
    else if maxBytes < 4 then maxBytes
    else 4
  }

  function Gap(maxBytes: int, used: nat): nat {
    if maxBytes > used then maxBytes - used else 0
  }

  /**
   Truncates to at most `maxBytes` bytes. At most four cuts are tried; the last one is at a character
   boundary exactly when at least one character fits.
   */
  method TruncateToUtf8Bytes(text: string, maxBytes: int) returns (r: string, ghost cuts: nat, ghost decoded: bool)
    ensures r == Truncated(text, maxBytes)
    ensures cuts == CutsTried(text, maxBytes) <= 4
    ensures decoded <==> cuts > 0 && Fit(text, maxBytes) != ""
  {
    cuts, decoded := 0, false;
    if maxBytes <= 0 { return "", 0, false; }
    var encoded := Encode(text);
    if |encoded| <= maxBytes { return text, 0, false; }
    FitIsLongest(text, maxBytes);
    FitOfFit(text, maxBytes);
    ghost var best := Utf8ByteLength(Fit(text, maxBytes));
    var end: nat := maxBytes;
    while end > (if maxBytes - 4 > 0 then maxBytes - 4 else 0)
      invariant best <= end <= maxBytes
      invariant cuts == maxBytes - end <= 4
      invariant maxBytes - 4 <= end
    {
      cuts := cuts + 1;
      DecodeCut(text, end);
      match DecodeFatal(encoded[..end]) {
        case Some(kept) =>
          BoundaryBelow(text, end, maxBytes);
          return kept, cuts, true;
        case None =>
      }
      end := end - 1;
    }
    r := "";
  }

  /** A truncated text never exceeds its budget. */
  lemma TruncatedFits(text: string, maxBytes: int)
    requires maxBytes >= 0
    ensures Utf8ByteLength(Truncated(text, maxBytes)) <= maxBytes
  {
    FitIsLongest(text, maxBytes);
    var fit := Fit(text, maxBytes);
    assert fit != "" ==> Utf8ByteLength(fit[1..]) <= Utf8ByteLength(fit);
  }

  /**
   Exactly when truncation returns the longest whole-character prefix: always, except for a text that
   starts with a byte order mark, is too long, and has room for the mark.
   */
  lemma LongestPrefixExactlyWhen(text: string, maxBytes: int)
    ensures Truncated(text, maxBytes) == Fit(text, maxBytes)
       <==> !(text != "" && text[0] == BYTE_ORDER_MARK && 3 <= maxBytes < Utf8ByteLength(text))
  {
    FitIsLongest(text, maxBytes);
    assert |EncodeChar(BYTE_ORDER_MARK)| == 3;
    if text != "" && |EncodeChar(text[0])| <= maxBytes {
      assert Fit(text, maxBytes)[0] == text[0];
      assert |Fit(text, maxBytes)[1..]| < |Fit(text, maxBytes)|;
    }
  }

  /** Without a byte order mark at the front truncation always keeps the longest whole-character prefix. */
  lemma UnmarkedKeepsLongest(text: string, maxBytes: int)
    requires text == "" || text[0] != BYTE_ORDER_MARK
    ensures Truncated(text, maxBytes) == Fit(text, maxBytes)
  {
    LongestPrefixExactlyWhen(text, maxBytes);
  }
}
