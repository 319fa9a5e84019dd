/**
 PNG streams as chunks (sections 5.2 and 5.3 of the PNG specification, second edition), and the upload
 nonce: a text chunk put behind the header so that the same image has other bytes.
 */
module Png {
  import opened Wrappers
  import opened Crc32
  import opened Octets

  const WORD_LIMIT := 0x1_0000_0000

  /** A number in four bytes, highest byte first. */
  function Uint32(n: nat): (b: seq<bv8>)
    requires n < WORD_LIMIT
    ensures |b| == 4
  {
    [Octet(n / 0x100_0000), Octet(n / 0x1_0000 % 0x100), Octet(n / 0x100 % 0x100), Octet(n % 0x100)]
  }

  /** Four bytes are read and written highest first. */
  lemma HighestFirst(b: seq<bv8>)
    requires |b| == 4
    ensures ReadUint32(b) ==
      0x100_0000 * (b[0] as int) + 0x1_0000 * (b[1] as int) + 0x100 * (b[2] as int) + (b[3] as int)
    ensures forall n: nat :: n < WORD_LIMIT && Uint32(n) == b ==> n == ReadUint32(b)
  {
    hide Value, Uint32;
    ValueIsNumber(b[0]);
    ValueIsNumber(b[1]);
    ValueIsNumber(b[2]);
    ValueIsNumber(b[3]);
    forall n: nat | n < WORD_LIMIT && Uint32(n) == b
      ensures n == ReadUint32(b)
    {
      ReadWritten(n);
    }
  }

  function ReadUint32(b: seq<bv8>): nat
    requires |b| == 4
  {
    ((Value(b[0]) * 0x100 + Value(b[1])) * 0x100 + Value(b[2])) * 0x100 + Value(b[3])
  }

  /** A checksum as a number. */
  function Number(c: bv32): (n: nat)
    ensures n < WORD_LIMIT
  {
    c as int
  }

  lemma Digits(n: nat)
    requires n < WORD_LIMIT
    ensures ((n / 0x100_0000 * 0x100 + n / 0x1_0000 % 0x100) * 0x100 + n / 0x100 % 0x100) * 0x100 + n % 0x100 == n
  {
    assert n / 0x100 == n / 0x1_0000 * 0x100 + n / 0x100 % 0x100;
    assert n / 0x1_0000 == n / 0x100_0000 * 0x100 + n / 0x1_0000 % 0x100;
  }

  lemma DigitsBack(a: nat, b: nat, c: nat, d: nat)
    requires a < 0x100 && b < 0x100 && c < 0x100 && d < 0x100
    ensures var n := ((a * 0x100 + b) * 0x100 + c) * 0x100 + d;
            && n < WORD_LIMIT && n / 0x100_0000 == a
            && n / 0x1_0000 % 0x100 == b && n / 0x100 % 0x100 == c && n % 0x100 == d
  {
  }

  lemma ReadWritten(n: nat)
    requires n < WORD_LIMIT
    ensures ReadUint32(Uint32(n)) == n
  {
    hide Value, Octet;
    ValueOfOctet(n / 0x100_0000);
    ValueOfOctet(n / 0x1_0000 % 0x100);
    ValueOfOctet(n / 0x100 % 0x100);
    ValueOfOctet(n % 0x100);
    Digits(n);
  }

  lemma WrittenRead(b: seq<bv8>)
    requires |b| == 4
    ensures ReadUint32(b) < WORD_LIMIT && Uint32(ReadUint32(b)) == b
  {
    hide Value, Octet;
    OctetOfValue(b[0]);
    OctetOfValue(b[1]);
    OctetOfValue(b[2]);
    OctetOfValue(b[3]);
    DigitsBack(Value(b[0]), Value(b[1]), Value(b[2]), Value(b[3]));
  }

  // ----- Chunks -----

  datatype Chunk = Chunk(kind: seq<bv8>, data: seq<bv8>)

  /** Four type bytes, and a length the length field can hold. */
  predicate IsChunk(c: Chunk) {
    |c.kind| == 4 && |c.data| < WORD_LIMIT
  }

  predicate AreChunks(cs: seq<Chunk>) {
    forall i :: 0 <= i < |cs| ==> IsChunk(cs[i])
  }

  /** Length, type, data, and the checksum of type and data. */
  function EncodeChunk(c: Chunk): (b: seq<bv8>)
    requires IsChunk(c)
    ensures |b| == 12 + |c.data|
  {
    Uint32(|c.data|) + c.kind + c.data + Uint32(Number(Checksum(c.kind + c.data)))
  }

  function EncodeChunks(cs: seq<Chunk>): seq<bv8>
    requires AreChunks(cs)
  {
    if cs == [] then [] else EncodeChunk(cs[0]) + EncodeChunks(cs[1..])
  }

  /** The first chunk of some bytes, if they hold a whole chunk with the right checksum. */
  function ParseChunk(b: seq<bv8>): (r: Option<Chunk>)
    ensures r.Some? ==> IsChunk(r.value) && 12 + |r.value.data| <= |b|
  {
    if |b| < 12 then None
    else
      var length := ReadUint32(b[..4]);
      if |b| < 12 + length || length >= WORD_LIMIT then None
      else if ReadUint32(b[8 + length..12 + length]) != Number(Checksum(b[4..8 + length])) then None
      else Some(Chunk(b[4..8], b[8..8 + length]))
  }

  function ParseChunks(b: seq<bv8>): (r: Option<seq<Chunk>>)
    ensures r.Some? ==> AreChunks(r.value)
    decreases |b|
  {
    if b == [] then Some([])
    else
      match ParseChunk(b)
      case None => None
      case Some(c) =>
        match ParseChunks(b[12 + |c.data|..])
        case None => None
        case Some(cs) =>
          AreChunksCons(c, cs);
          Some([c] + cs)
  }

  lemma AreChunksCons(c: Chunk, cs: seq<Chunk>)
    requires IsChunk(c) && AreChunks(cs)
    ensures AreChunks([c] + cs)
  {
  }

  lemma ParseEncodedChunk(c: Chunk, rest: seq<bv8>)
    requires IsChunk(c)
    ensures ParseChunk(EncodeChunk(c) + rest) == Some(c)
    ensures (EncodeChunk(c) + rest)[12 + |c.data|..] == rest
  {
    hide ReadUint32, Uint32, Checksum, Number;
    var b := EncodeChunk(c) + rest;
    var n := |c.data|;
    var crc := Number(Checksum(c.kind + c.data));
    ReadWritten(n);
    ReadWritten(crc);
    assert b[..4] == Uint32(n);
    assert b[4..8] == c.kind;
    assert b[8..8 + n] == c.data;
    assert b[4..8 + n] == c.kind + c.data;
    assert b[8 + n..12 + n] == Uint32(crc);
  }

  lemma EncodeParsedChunk(b: seq<bv8>)
    requires ParseChunk(b).Some?
    ensures EncodeChunk(ParseChunk(b).value) == b[..12 + |ParseChunk(b).value.data|]
  {
    hide ReadUint32, Uint32, Checksum, Number;
    var n := ReadUint32(b[..4]);
    WrittenRead(b[..4]);
    WrittenRead(b[8 + n..12 + n]);
    assert b[4..8] + b[8..8 + n] == b[4..8 + n];
    assert b[..4] + b[4..8] + b[8..8 + n] + b[8 + n..12 + n] == b[..12 + n];
  }

  /** Parsing gives back the chunks that were encoded. */
  lemma {:induction false} ParseEncoded(cs: seq<Chunk>)
    requires AreChunks(cs)
    ensures ParseChunks(EncodeChunks(cs)) == Some(cs)
  {
    hide EncodeChunk, ParseChunk;
    if cs != [] {
      ParseEncodedChunk(cs[0], EncodeChunks(cs[1..]));
      ParseEncoded(cs[1..]);
      assert [cs[0]] + cs[1..] == cs;
      assert EncodeChunks(cs) != [];
    }
  }

  /** Only the encoding of some chunks parses to them. */
  lemma {:induction false} EncodeParsed(b: seq<bv8>)
    requires ParseChunks(b).Some?
    ensures EncodeChunks(ParseChunks(b).value) == b
    decreases |b|
  {
    hide EncodeChunk, ParseChunk;
    if b != [] {
      var c := ParseChunk(b).value;
      EncodeParsedChunk(b);
      EncodeParsed(b[12 + |c.data|..]);
    }
  }

  /** A change within four bytes of a chunk's type and data is noticed. */
  lemma DamageIsNoticed(c: Chunk, d: Chunk, before: seq<bv8>, w: seq<bv8>, w': seq<bv8>, after: seq<bv8>,
                        rest: seq<bv8>)
    requires IsChunk(c) && IsChunk(d) && |c.data| == |d.data| && |w| == |w'| <= 4 && w != w'
    requires c.kind + c.data == before + w + after && d.kind + d.data == before + w' + after
    ensures var crc := Uint32(Number(Checksum(c.kind + c.data)));
            ParseChunk(Uint32(|d.data|) + d.kind + d.data + crc + rest).None?
  {
    hide ReadUint32, Uint32, Checksum;
    var n := |d.data|;
    var crc := Number(Checksum(c.kind + c.data));
    var b := Uint32(n) + d.kind + d.data + Uint32(crc) + rest;
    BurstChangesChecksum(before, w, w', after);
    ReadWritten(n);
    ReadWritten(crc);
    NumberInjective(Checksum(c.kind + c.data), Checksum(d.kind + d.data));
    assert b[..4] == Uint32(n);
    assert b[4..8 + n] == d.kind + d.data;
    assert b[8 + n..12 + n] == Uint32(crc);
  }

  lemma NumberInjective(c: bv32, d: bv32)
    ensures Number(c) == Number(d) ==> c == d
  {
    NumberBack(c);
    NumberBack(d);
  }

  lemma NumberBack(c: bv32)
    ensures Number(c) as bv32 == c
  {
  }

  // ----- Streams -----

  /** The eight bytes every PNG stream starts with. */
  const SIGNATURE: seq<bv8> := [0x89, 0x50, 0x4e, 0x47, 0x0d, 0x0a, 0x1a, 0x0a]

  /** The type "IHDR". */
  const IHDR: seq<bv8> := [0x49, 0x48, 0x44, 0x52]

  const IHDR_END := 8 + 8 + 13 + 4

  /** Chunks that start with a header of 13 bytes. */
  predicate StartsWithHeader(cs: seq<Chunk>) {
    cs != [] && cs[0].kind == IHDR && |cs[0].data| == 13
  }

  /** The chunks of a well-formed stream: the signature, then a header of 13 bytes, then other chunks. */
  function ParsePng(png: seq<bv8>): (r: Option<seq<Chunk>>)
    ensures r.Some? ==> AreChunks(r.value) && |r.value| >= 1
  {
    if |png| < 8 || png[..8] != SIGNATURE then None
    else
      match ParseChunks(png[8..])
      case None => None
      case Some(cs) =>
        if StartsWithHeader(cs) then Some(cs) else None
  }

  /** The well-formed streams are exactly the encodings of chunks that start with a header. */
  lemma WellFormedExactlyEncoded(png: seq<bv8>, cs: seq<Chunk>)
    ensures ParsePng(png) == Some(cs)
       <==> AreChunks(cs) && StartsWithHeader(cs) && png == SIGNATURE + EncodeChunks(cs)
  {
    hide ParseChunk, EncodeChunk;
    assert |SIGNATURE| == 8;
    if AreChunks(cs) && png == SIGNATURE + EncodeChunks(cs) {
      assert png[..8] == SIGNATURE && png[8..] == EncodeChunks(cs);
      ParseEncoded(cs);
    }
    if ParsePng(png) == Some(cs) {
      EncodeParsed(png[8..]);
      assert png == png[..8] + png[8..];
    }
  }

  /** A byte buffer keeps the low eight bits of a character code. */
  function CharByte(c: char): bv8 {
    Octet(c as int % 0x100)
  }

  function CharBytes(text: string): (b: seq<bv8>)
    ensures |b| == |text| && forall i :: 0 <= i < |text| ==> b[i] == CharByte(text[i])
  {
    seq(|text|, i requires 0 <= i < |text| => CharByte(text[i]))
  }

  predicate IsNonceChar(c: char) {
    '0' <= c <= '9' || 'a' <= c <= 'f'
  }

  /** One to sixty-four lower-case hexadecimal digits. */
  predicate IsNonce(nonce: string) {
    1 <= |nonce| <= 64 && forall i :: 0 <= i < |nonce| ==> IsNonceChar(nonce[i])
  }

  const KEYWORD: string := "signkit-upload-nonce"

  /** The type "tEXt". */
  const TEXT: string := "tEXt"

  function NonceChunk(nonce: string): Chunk {
    Chunk(CharBytes(TEXT), CharBytes(KEYWORD + "\0" + nonce))
  }

  /** What the code checks of an image: its signature and the head of its first chunk, but not the chunk's checksum. */
  predicate HasHeader(png: seq<bv8>) {
    && |png| >= IHDR_END
    && png[..8] == SIGNATURE
    && ReadUint32(png[8..12]) == 13
    && png[12..16] == IHDR
  }

  function Insert(png: seq<bv8>, chunk: seq<bv8>): seq<bv8>
    requires |png| >= IHDR_END
  {
    png[..IHDR_END] + chunk + png[IHDR_END..]
  }

  /** The image without the chunk behind its header. */
  function Remove(png: seq<bv8>): seq<bv8> {
    if |png| < IHDR_END + 12 then png
    else
      var length := ReadUint32(png[IHDR_END..IHDR_END + 4]);
      if |png| < IHDR_END + 12 + length then png
      else png[..IHDR_END] + png[IHDR_END + 12 + length..]
  }

  lemma NonceChunkIsChunk(nonce: string)
    requires IsNonce(nonce)
    ensures IsChunk(NonceChunk(nonce)) && |NonceChunk(nonce).data| == 21 + |nonce|
  {
    assert |KEYWORD| == 20;
    assert |TEXT| == 4;
  }

  lemma CharByteInjective(c: char, d: char)
    requires c as int < 0x100 && d as int < 0x100 && CharByte(c) == CharByte(d)
    ensures c == d
  {
    hide Octet, Value;
    ValueOfOctet(c as int);
    ValueOfOctet(d as int);
  }

  lemma NonceReadable(prefix: string, nonce: string, nonce': string)
    requires IsNonce(nonce) && IsNonce(nonce') && CharBytes(prefix + nonce) == CharBytes(prefix + nonce')
    ensures nonce == nonce'
  {
    hide CharByte;
    var n := |prefix|;
    assert |nonce| == |CharBytes(prefix + nonce)| - n == |nonce'|;
    forall i | 0 <= i < |nonce|
      ensures nonce[i] == nonce'[i]
    {
      assert (prefix + nonce)[n + i] == nonce[i] && (prefix + nonce')[n + i] == nonce'[i];
      assert CharBytes(prefix + nonce)[n + i] == CharBytes(prefix + nonce')[n + i];
      assert IsNonceChar(nonce[i]) && IsNonceChar(nonce'[i]);
      CharByteInjective(nonce[i], nonce'[i]);
    }
  }

  /** Taking the chunk behind the header out again restores the image. */
  lemma RemoveInserted(png: seq<bv8>, c: Chunk)
    requires |png| >= IHDR_END && IsChunk(c)
    ensures Remove(Insert(png, EncodeChunk(c))) == png
  {
    hide ReadUint32, Uint32, Checksum, Number;
    var b := Insert(png, EncodeChunk(c));
    ReadWritten(|c.data|);
    assert b[IHDR_END..IHDR_END + 4] == Uint32(|c.data|);
    assert b[..IHDR_END] == png[..IHDR_END];
    assert b[IHDR_END + 12 + |c.data|..] == png[IHDR_END..];
  }

  /** Different chunks make different images. */
  lemma InsertInjective(png: seq<bv8>, c: Chunk, d: Chunk)
    requires |png| >= IHDR_END && IsChunk(c) && IsChunk(d)
    requires Insert(png, EncodeChunk(c)) == Insert(png, EncodeChunk(d))
    ensures c == d
  {
    hide EncodeChunk, ParseChunk;
    ParseEncodedChunk(c, png[IHDR_END..]);
    ParseEncodedChunk(d, png[IHDR_END..]);
    assert Insert(png, EncodeChunk(c))[IHDR_END..] == EncodeChunk(c) + png[IHDR_END..];
    assert Insert(png, EncodeChunk(d))[IHDR_END..] == EncodeChunk(d) + png[IHDR_END..];
  }

  lemma WellFormedHasHeader(png: seq<bv8>)
    requires ParsePng(png).Some?
    ensures HasHeader(png)
  {
    hide ReadUint32, Checksum, Number;
    var b := png[8..];
    var c := ParseChunk(b).value;
    assert b[..4] == png[8..12] && b[4..8] == png[12..16];
    assert ParseChunks(b).value[0] == c;
  }

  /**
   Inserting a chunk behind the header of an image that starts as the code asks: the result is
   well-formed exactly when the image was, and then it has the same chunks with the new one second.
   */
  lemma InsertedParses(png: seq<bv8>, c: Chunk)
    requires HasHeader(png) && IsChunk(c)
    ensures ParsePng(Insert(png, EncodeChunk(c)))
         == match ParsePng(png) case None => None case Some(cs) => Some([cs[0], c] + cs[1..])
  {
    hide ReadUint32, EncodeChunk, ParseChunk, ParseChunks;
    var b := Insert(png, EncodeChunk(c));
    var head, tail := png[8..IHDR_END], png[IHDR_END..];
    assert png[8..] == head + tail;
    assert b[8..] == head + (EncodeChunk(c) + tail);
    assert head[..4] == png[8..12];
    ParseBehindHeader(head, tail);
    ParseBehindHeader(head, EncodeChunk(c) + tail);
    ParseBehindChunk(c, tail);
    if ParseChunk(head).Some? && ParseChunks(tail).Some? {
      var h, cs := ParseChunk(head).value, ParseChunks(tail).value;
      assert ([h] + cs)[1..] == cs;
      assert [h] + ([c] + cs) == [h, c] + cs;
    }
  }

  lemma ParseBehindHeader(head: seq<bv8>, rest: seq<bv8>)
    requires |head| == 25 && ReadUint32(head[..4]) == 13
    ensures ParseChunks(head + rest)
         == (if ParseChunk(head).None? || ParseChunks(rest).None? then None
             else Some([ParseChunk(head).value] + ParseChunks(rest).value))
    ensures ParseChunk(head).Some? ==> |ParseChunk(head).value.data| == 13
  {
    hide ReadUint32, ParseChunk;
    FirstChunkLocal(head, rest);
    assert (head + rest)[25..] == rest;
    assert head + rest != [];
  }

  lemma ParseBehindChunk(c: Chunk, rest: seq<bv8>)
    requires IsChunk(c)
    ensures ParseChunks(EncodeChunk(c) + rest)
         == match ParseChunks(rest) case None => None case Some(cs) => Some([c] + cs)
  {
    hide EncodeChunk, ParseChunk;
    ParseEncodedChunk(c, rest);
    assert EncodeChunk(c) + rest != [];
  }

  /** Whether a chunk of 13 bytes can be read depends on its own bytes only. */
  lemma FirstChunkLocal(head: seq<bv8>, rest: seq<bv8>)
    requires |head| == 25 && ReadUint32(head[..4]) == 13
    ensures ParseChunk(head + rest) == ParseChunk(head)
    ensures ParseChunk(head).Some? ==> |ParseChunk(head).value.data| == 13
  {
    hide ReadUint32, Checksum, Number;
    var b := head + rest;
    assert b[..4] == head[..4] && b[4..8] == head[4..8] && b[8..21] == head[8..21];
    assert b[21..25] == head[21..25] && b[4..21] == head[4..21];
  }

  /** Chunks a decoder must understand: those whose type starts with an upper-case letter. */
  function Critical(cs: seq<Chunk>): seq<Chunk>
    requires AreChunks(cs)
  {
    if cs == [] then []
    else (if cs[0].kind[0] & 0x20 == 0 then [cs[0]] else []) + Critical(cs[1..])
  }

  /** The new chunk is not one of them, so what a decoder shows is the same. */
  lemma SameCriticalChunks(png: seq<bv8>, nonce: string)
    requires ParsePng(png).Some? && IsNonce(nonce)
    requires AreChunks([ParsePng(png).value[0], NonceChunk(nonce)] + ParsePng(png).value[1..])
    ensures Critical([ParsePng(png).value[0], NonceChunk(nonce)] + ParsePng(png).value[1..])
         == Critical(ParsePng(png).value)
  {
    hide ParsePng, Octet;
    var cs := ParsePng(png).value;
    var c := NonceChunk(nonce);
    assert c.kind[0] == CharByte('t') == Octet(0x74);
    LowerT();
    var after := [cs[0], c] + cs[1..];
    assert after[1..] == [c] + cs[1..];
    assert after[1..][1..] == cs[1..];
  }

  lemma LowerT()
    ensures Octet(0x74) & 0x20 != 0
  {
    hide Pack;
    assert 0x74 / 2 == 0x3a && 0x3a / 2 == 0x1d && 0x1d / 2 == 0xe && 0xe / 2 == 7 && 7 / 2 == 3 && 3 / 2 == 1;
    assert Octet(0x74) == Pack(false, true, true, true, false, true, false, false);
    OnPack(false, true, true, true, false, true, false, false);
  }
}
