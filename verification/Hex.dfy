/** Bytes as lower-case hexadecimal text. */
module Hex {
  import opened Utf8
  import opened DocumentSet

  function HexDigit(n: int): (c: char)
    requires 0 <= n < 16
    ensures IsLowerHex(c) && HexValue(c) == n
  {
    "0123456789abcdef"[n]
  }

  function HexValue(c: char): (n: int)
    requires IsLowerHex(c)
    ensures 0 <= n < 16
  {
    if c <= '9' then (c as int) - ('0' as int) else (c as int) - ('a' as int) + 10
  }

  function BytesToHex(bytes: seq<byte>): (hex: string)
    ensures |hex| == 2 * |bytes| && forall i :: 0 <= i < |hex| ==> IsLowerHex(hex[i])
  {
    if bytes == [] then ""
    else [HexDigit(bytes[0] as int / 16), HexDigit(bytes[0] as int % 16)] + BytesToHex(bytes[1..])
  }

  function HexToBytes(hex: string): (bytes: seq<byte>)
    requires |hex| % 2 == 0 && forall i :: 0 <= i < |hex| ==> IsLowerHex(hex[i])
    ensures |bytes| == |hex| / 2
  {
    if hex == "" then []
    else [(HexValue(hex[0]) * 16 + HexValue(hex[1])) as byte] + HexToBytes(hex[2..])
  }

  /** Each byte is its high digit and then its low digit. */
  lemma {:induction false} HexDigitsOfByte(bytes: seq<byte>, i: nat)
    requires i < |bytes|
    ensures BytesToHex(bytes)[2 * i] == "0123456789abcdef"[bytes[i] as int / 16]
    ensures BytesToHex(bytes)[2 * i + 1] == "0123456789abcdef"[bytes[i] as int % 16]
  {
    if i > 0 {
      HexDigitsOfByte(bytes[1..], i - 1);
      assert BytesToHex(bytes)[2..] == BytesToHex(bytes[1..]);
    }
  }

  lemma {:induction false} DecodeHex(bytes: seq<byte>)
    ensures HexToBytes(BytesToHex(bytes)) == bytes
  {
    if bytes != [] {
      var hex := BytesToHex(bytes);
      DecodeHex(bytes[1..]);
      assert hex[2..] == BytesToHex(bytes[1..]);
    }
  }

  lemma HexValueInjective(a: char, b: char)
    requires IsLowerHex(a) && IsLowerHex(b) && HexValue(a) == HexValue(b)
    ensures a == b
  {
  }

  lemma {:induction false} EncodeHex(hex: string)
    requires |hex| % 2 == 0 && forall i :: 0 <= i < |hex| ==> IsLowerHex(hex[i])
    ensures BytesToHex(HexToBytes(hex)) == hex
  {
    if hex != "" {
      var bytes := HexToBytes(hex);
      EncodeHex(hex[2..]);
      assert bytes[1..] == HexToBytes(hex[2..]);
      HexValueInjective(HexDigit(bytes[0] as int / 16), hex[0]);
      HexValueInjective(HexDigit(bytes[0] as int % 16), hex[1]);
      assert hex == [hex[0], hex[1]] + hex[2..];
    }
  }
}
