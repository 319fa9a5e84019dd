/** Giving an image fresh bytes: a nonce in a text chunk behind the header. */
module UploadNonce {
  import opened Wrappers
  import opened Crc32
  import opened Octets
  import opened Png

  /** The image with the nonce, if the code accepts both. */
  function WithNonce(png: seq<bv8>, nonce: string): Option<seq<bv8>> {
    if HasHeader(png) && IsNonce(nonce) then
      NonceChunkIsChunk(nonce);
      Some(Insert(png, EncodeChunk(NonceChunk(nonce))))
    else None
  }

  /** Bytes with some of them overwritten. */
  function Overwrite(b: seq<bv8>, offset: nat, bytes: seq<bv8>): (r: seq<bv8>)
    requires offset + |bytes| <= |b|
    ensures |r| == |b|
  {
    b[..offset] + bytes + b[offset + |bytes|..]
  }

  method SetBytes(buffer: array<bv8>, bytes: seq<bv8>, offset: nat)
    requires offset + |bytes| <= buffer.Length
    modifies buffer
    ensures buffer[..] == Overwrite(old(buffer[..]), offset, bytes)
  {
    for i := 0 to |bytes|
      invariant buffer[..] == Overwrite(old(buffer[..]), offset, bytes[..i])
    {
      assert bytes[..i + 1] == bytes[..i] + [bytes[i]];
      buffer[offset + i] := bytes[i];
    }
    assert bytes[..|bytes|] == bytes;
  }

  method SetUint32(buffer: array<bv8>, offset: nat, n: nat)
    requires offset + 4 <= buffer.Length && n < WORD_LIMIT
    modifies buffer
    ensures buffer[..] == Overwrite(old(buffer[..]), offset, Uint32(n))
  {
    SetBytes(buffer, Uint32(n), offset);
  }

  lemma TextBytes(nonce: string, text: string)
    requires text == KEYWORD + "\0" + nonce
    ensures |text| == 21 + |nonce| == |NonceChunk(nonce).data| && |TEXT| == 4
    ensures CharBytes(TEXT + text) == NonceChunk(nonce).kind + NonceChunk(nonce).data
  {
    hide CharByte;
    assert |KEYWORD| == 20;
  }

  lemma EncodingIs(c: Chunk)
    requires IsChunk(c)
    ensures EncodeChunk(c) == Uint32(|c.data|) + (c.kind + c.data) + Uint32(Number(Checksum(c.kind + c.data)))
  {
    hide Uint32, Checksum, Number;
  }

  lemma FieldsWritten(empty: seq<bv8>, length: seq<bv8>, body: seq<bv8>)
    requires |length| == 4 && |empty| == 8 + |body|
    ensures Overwrite(Overwrite(empty, 0, length), 4, body)[4..4 + |body|] == body
  {
  }

  lemma LastFieldWritten(length: seq<bv8>, body: seq<bv8>, chunk: seq<bv8>, crc: seq<bv8>, empty: seq<bv8>)
    requires |length| == |crc| == 4 && |empty| == 8 + |body|
    requires chunk == Overwrite(Overwrite(Overwrite(empty, 0, length), 4, body), 4 + |body|, crc)
    ensures chunk == length + body + crc
  {
    var first := Overwrite(empty, 0, length);
    assert first[..4] == length;
    var second := Overwrite(first, 4, body);
    assert second[..4 + |body|] == length + body;
  }

  /** The nonce chunk, written field by field into a buffer. */
  method WriteNonceChunk(nonce: string) returns (chunk: array<bv8>)
    requires IsNonce(nonce)
    ensures fresh(chunk)
    ensures IsChunk(NonceChunk(nonce)) && chunk[..] == EncodeChunk(NonceChunk(nonce))
  {
    hide Uint32, Checksum, Number, CharBytes, IsNonce, Overwrite, NonceChunk, EncodeChunk;
    NonceChunkIsChunk(nonce);
    ghost var c := NonceChunk(nonce);
    var text := KEYWORD + "\0" + nonce;
    var n := |text|;
    TextBytes(nonce, text);
    chunk := new bv8[12 + n];
    ghost var empty := chunk[..];
    SetUint32(chunk, 0, n);
    SetBytes(chunk, CharBytes(TEXT + text), 4);
    FieldsWritten(empty, Uint32(n), c.kind + c.data);
    var crc := Crc32.Crc32(chunk[4..8 + n]);
    SetUint32(chunk, 8 + n, Number(crc));
    LastFieldWritten(Uint32(n), c.kind + c.data, chunk[..], Uint32(Number(crc)), empty);
    EncodingIs(c);
  }

  lemma PiecesWritten(empty: seq<bv8>, png: seq<bv8>, chunk: seq<bv8>)
    requires |png| >= IHDR_END && |empty| == |png| + |chunk|
    ensures var head := Overwrite(empty, 0, png[..IHDR_END]);
            Overwrite(Overwrite(head, IHDR_END, chunk), IHDR_END + |chunk|, png[IHDR_END..]) == Insert(png, chunk)
  {
    var first := Overwrite(empty, 0, png[..IHDR_END]);
    assert first[..IHDR_END] == png[..IHDR_END];
    var second := Overwrite(first, IHDR_END, chunk);
    assert second[..IHDR_END + |chunk|] == png[..IHDR_END] + chunk;
  }

  /** Each byte is the code of its character. */
  ghost predicate Spells(bytes: seq<bv8>, text: string) {
    |bytes| == |text| && forall i :: 0 <= i < |text| ==> bytes[i] as int == text[i] as int
  }

  /**
   A chunk with a keyword and a nonce: the length of both and of the zero byte between them, the four
   letters `tEXt`, the keyword, the zero byte, the nonce, and the checksum of all but the length.
   */
  ghost predicate IsNonceChunk(chunk: seq<bv8>, nonce: string) {
    && |chunk| == 33 + |nonce|
    && ReadUint32(chunk[..4]) == 21 + |nonce|
    && Spells(chunk[4..8], "tEXt")
    && Spells(chunk[8..28], "signkit-upload-nonce") && chunk[28] == 0 && Spells(chunk[29..29 + |nonce|], nonce)
    && ReadUint32(chunk[29 + |nonce|..]) == Number(Checksum(chunk[4..29 + |nonce|]))
  }

  lemma CharByteSpells(c: char)
    requires c as int < 0x100
    ensures CharByte(c) as int == c as int
  {
    hide Octet, Value;
    ValueOfOctet(c as int);
    ValueIsNumber(CharByte(c));
  }

  lemma TextSpelled(text: string)
    requires forall i :: 0 <= i < |text| ==> text[i] as int < 0x100
    ensures Spells(CharBytes(text), text)
  {
    hide CharByte;
    forall i | 0 <= i < |text|
      ensures CharBytes(text)[i] as int == text[i] as int
    {
      CharByteSpells(text[i]);
    }
  }

  /** The parts of a chunk whose data is a keyword, a zero byte and a nonce. */
  lemma FieldsRead(chunk: seq<bv8>, length: seq<bv8>, kind: seq<bv8>, data: seq<bv8>, crc: seq<bv8>)
    requires chunk == length + kind + data + crc && |length| == |kind| == |crc| == 4 && |data| >= 21
    ensures chunk[..4] == length && chunk[4..8] == kind && chunk[4..8 + |data|] == kind + data
    ensures chunk[8..28] == data[0..20] && chunk[28] == data[20] && chunk[29..8 + |data|] == data[21..|data|]
    ensures chunk[8 + |data|..] == crc
  {
  }

  lemma DataSpelled(data: seq<bv8>, nonce: string)
    requires Spells(data, KEYWORD + "\0" + nonce)
    ensures |data| == 21 + |nonce|
    ensures Spells(data[0..20], KEYWORD) && data[20] == 0 && Spells(data[21..|data|], nonce)
  {
    assert |KEYWORD| == 20;
    var text := KEYWORD + "\0" + nonce;
    assert text[20] == '\0';
    forall i | 0 <= i < 20
      ensures data[0..20][i] as int == KEYWORD[i] as int
    {
      assert text[i] == KEYWORD[i];
    }
    forall i | 0 <= i < |nonce|
      ensures data[21..|data|][i] as int == nonce[i] as int
    {
      assert text[21 + i] == nonce[i];
    }
  }

  lemma NonceSpelled(nonce: string)
    requires IsNonce(nonce)
    ensures Spells(NonceChunk(nonce).kind, "tEXt") && Spells(NonceChunk(nonce).data, KEYWORD + "\0" + nonce)
  {
    hide CharBytes;
    assert |KEYWORD| == 20;
    TextSpelled(TEXT);
    TextSpelled(KEYWORD + "\0" + nonce);
  }

  lemma EncodedIsNonceChunk(nonce: string)
    requires IsNonce(nonce)
    ensures IsChunk(NonceChunk(nonce)) && IsNonceChunk(EncodeChunk(NonceChunk(nonce)), nonce)
  {
    NonceChunkIsChunk(nonce);
    NonceSpelled(nonce);
    hide NonceChunk, Spells, Checksum, Number, Uint32, ReadUint32, IsNonce;
    var c := NonceChunk(nonce);
    var length, crc := Uint32(|c.data|), Uint32(Number(Checksum(c.kind + c.data)));
    ReadWritten(|c.data|);
    ReadWritten(Number(Checksum(c.kind + c.data)));
    DataSpelled(c.data, nonce);
    FieldsRead(EncodeChunk(c), length, c.kind, c.data, crc);
  }

  /** The fixed bytes at the head of an image, one by one. */
  lemma HeaderBytes(png: seq<bv8>)
    ensures HasHeader(png) <==>
      && |png| >= 33 && png[..8] == [0x89, 0x50, 0x4e, 0x47, 0x0d, 0x0a, 0x1a, 0x0a]
      && png[8..12] == [0, 0, 0, 13] && Spells(png[12..16], "IHDR")
  {
    if |png| >= 33 {
      LengthBytes(png[8..12]);
      HeaderSpelled(png[12..16]);
    }
  }

  lemma HeaderSpelled(kind: seq<bv8>)
    requires |kind| == 4
    ensures kind == IHDR <==> Spells(kind, "IHDR")
  {
    var text := "IHDR";
    assert text[0] as int == 0x49 && text[1] as int == 0x48 && text[2] as int == 0x44 && text[3] as int == 0x52;
    assert Spells(IHDR, text);
    forall i | 0 <= i < 4 && kind[i] as int == IHDR[i] as int
      ensures kind[i] == IHDR[i]
    {
      SameNumber(kind[i], IHDR[i]);
    }
  }

  lemma SameNumber(a: bv8, b: bv8)
    requires a as int == b as int
    ensures a == b
  {
    ValueIsNumber(a);
    ValueIsNumber(b);
    OctetOfValue(a);
    OctetOfValue(b);
  }

  lemma LengthBytes(b: seq<bv8>)
    requires |b| == 4
    ensures ReadUint32(b) == 13 <==> b == [0, 0, 0, 13]
  {
    hide ReadUint32, Uint32;
    HighestFirst([0, 0, 0, 13]);
    WrittenRead([0, 0, 0, 13]);
    WrittenRead(b);
  }

  method WithUploadNonce(png: seq<bv8>, nonce: string) returns (result: Option<seq<bv8>>)
    ensures result == WithNonce(png, nonce)
    ensures result.Some? <==>
      && |png| >= 33 && png[..8] == [0x89, 0x50, 0x4e, 0x47, 0x0d, 0x0a, 0x1a, 0x0a]
      && png[8..12] == [0, 0, 0, 13] && Spells(png[12..16], "IHDR") && IsNonce(nonce)
    ensures result.Some? ==>
      exists chunk :: IsNonceChunk(chunk, nonce) && result.value == png[..33] + chunk + png[33..]
  {
    hide ReadUint32, EncodeChunk, IsNonce, NonceChunk, Overwrite, Spells, IsNonceChunk;
    HeaderBytes(png);
    if IsNonce(nonce) { EncodedIsNonceChunk(nonce); }
    if |png| < IHDR_END { return None; }
    for index := 0 to |SIGNATURE|
      invariant png[..index] == SIGNATURE[..index]
    {
      if png[index] != SIGNATURE[index] {
        assert png[..8][index] == png[index];
        return None;
      }
    }
    assert png[..8] == SIGNATURE;
    if ReadUint32(png[8..12]) != 13 || png[12..16] != IHDR || !IsNonce(nonce) { return None; }
    var chunk := WriteNonceChunk(nonce);
    var buffer := new bv8[|png| + chunk.Length];
    ghost var empty := buffer[..];
    SetBytes(buffer, png[..IHDR_END], 0);
    SetBytes(buffer, chunk[..], IHDR_END);
    SetBytes(buffer, png[IHDR_END..], IHDR_END + chunk.Length);
    PiecesWritten(empty, png, chunk[..]);
    result := Some(buffer[..]);
  }

  /**
   For an image with well-formed chunks the code succeeds for every nonce; the result has the same
   chunks with the nonce's chunk second, hence the same critical chunks, and removing it restores the image.
   */
  lemma WellFormedImageKept(png: seq<bv8>, nonce: string)
    requires ParsePng(png).Some? && IsNonce(nonce)
    ensures WithNonce(png, nonce).Some?
    ensures var cs, r := ParsePng(png).value, WithNonce(png, nonce).value;
            && ParsePng(r) == Some([cs[0], NonceChunk(nonce)] + cs[1..])
            && Critical(ParsePng(r).value) == Critical(cs)
            && Remove(r) == png
  {
    hide ParsePng, EncodeChunk, HasHeader;
    WellFormedHasHeader(png);
    NonceChunkIsChunk(nonce);
    InsertedParses(png, NonceChunk(nonce));
    HeaderLong(png);
    RemoveInserted(png, NonceChunk(nonce));
    SameCriticalChunks(png, nonce);
  }

  lemma HeaderLong(png: seq<bv8>)
    requires HasHeader(png)
    ensures |png| >= IHDR_END
  {
  }

  /** The result is well-formed exactly when the image was, even though the code reads only its header. */
  lemma WellFormedExactlyWhen(png: seq<bv8>, nonce: string)
    requires WithNonce(png, nonce).Some?
    ensures ParsePng(WithNonce(png, nonce).value).Some? <==> ParsePng(png).Some?
    ensures Remove(WithNonce(png, nonce).value) == png
  {
    hide ParsePng, EncodeChunk;
    NonceChunkIsChunk(nonce);
    InsertedParses(png, NonceChunk(nonce));
    RemoveInserted(png, NonceChunk(nonce));
  }

  /** Different nonces, or different images, give different bytes. */
  lemma BytesAreFresh(png: seq<bv8>, nonce: string, png': seq<bv8>, nonce': string)
    requires WithNonce(png, nonce).Some? && WithNonce(png, nonce) == WithNonce(png', nonce')
    ensures png == png' && nonce == nonce'
  {
    hide EncodeChunk, Remove, HasHeader;
    HeaderLong(png);
    HeaderLong(png');
    NonceChunkIsChunk(nonce);
    NonceChunkIsChunk(nonce');
    var c, c' := NonceChunk(nonce), NonceChunk(nonce');
    RemoveInserted(png, c);
    RemoveInserted(png', c');
    InsertInjective(png, c, c');
    NonceReadable(KEYWORD + "\0", nonce, nonce');
  }
}
