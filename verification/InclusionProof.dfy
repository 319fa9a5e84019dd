/**
 Hashes of document sets and inclusion proofs over them. Proofs work for any way to write a leaf out as
 bytes; that a hash binds the whole set is proved of the canonical JSON.
 */
module InclusionProof {
  import opened Wrappers
  import opened Leaves
  import opened DocumentSet
  import opened Merkle
  import opened Hex
  import opened LeafJson

  type Encoding = Leaf -> Bytes

  datatype Proof = Proof(index: int, size: int, leafHash: string, siblings: seq<string>)

  function Payloads(encode: Encoding, leaves: seq<Leaf>): (payloads: seq<Bytes>)
    ensures |payloads| == |leaves| && forall i :: 0 <= i < |leaves| ==> payloads[i] == encode(leaves[i])
  {
    seq(|leaves|, i requires 0 <= i < |leaves| => encode(leaves[i]))
  }

  function SetLeaves(h: Hasher, encode: Encoding, leaves: seq<Leaf>): (r: seq<Digest>)
    ensures |r| == |leaves|
  {
    LeafHashes(h, Payloads(encode, leaves))
  }

  /** The hash of a manifest, or the fault that keeps it from having one. */
  function DocumentSetHash(h: Hasher, encode: Encoding, m: Manifest): (r: Result<string, DocumentSetError>)
    ensures r.Ok? <==> Fault(m).None?
  {
    match Fault(m)
    case Some(e) => Err(e)
    case None => Ok(BytesToHex(Root(h, SetLeaves(h, encode, m.documents))))
  }

  function HexAll(digests: seq<Digest>): (r: seq<string>)
    ensures |r| == |digests| && forall i :: 0 <= i < |digests| ==> r[i] == BytesToHex(digests[i])
  {
    seq(|digests|, i requires 0 <= i < |digests| => BytesToHex(digests[i]))
  }

  datatype ProofError = InvalidSet(fault: DocumentSetError) | IndexOutOfRange

  /** The inclusion proof of one document. */
  function GenerateProof(h: Hasher, encode: Encoding, m: Manifest, index: int): (r: Result<Proof, ProofError>)
    ensures r.Ok? <==> Fault(m).None? && 0 <= index < |m.documents|
  {
    if Fault(m).Some? then Err(InvalidSet(Fault(m).value))
    else if index < 0 || index >= |m.documents| then Err(IndexOutOfRange)
    else
      var leaves := SetLeaves(h, encode, m.documents);
      Ok(Proof(index, |leaves|, BytesToHex(leaves[index]), HexAll(Siblings(h, leaves, index))))
  }

  /** The hash of a valid set is the tree hash of its leaves' bytes in order, in hexadecimal. */
  lemma SetHashIs(h: Hasher, encode: Encoding, m: Manifest, payloads: seq<Bytes>)
    requires Valid(m) && |payloads| == |m.documents|
    requires forall i :: 0 <= i < |payloads| ==> payloads[i] == encode(m.documents[i])
    ensures DocumentSetHash(h, encode, m) == Ok(BytesToHex(TreeHash(h, payloads)))
  {
    FaultlessIsValid(m);
    hide Valid, Fault, Root, BytesToHex;
    assert Payloads(encode, m.documents) == payloads;
  }

  /** A proof names its place and the set's size, the leaf's own hash, and the audit path over all leaf hashes. */
  lemma ProofIs(h: Hasher, encode: Encoding, m: Manifest, index: nat, leaves: seq<Digest>)
    requires Valid(m) && index < |m.documents| == |leaves|
    requires forall i :: 0 <= i < |leaves| ==> leaves[i] == h.digest([0] + h.domain + encode(m.documents[i]))
    ensures GenerateProof(h, encode, m, index)
         == Ok(Proof(index, |m.documents|, BytesToHex(leaves[index]), HexAll(Siblings(h, leaves, index))))
  {
    FaultlessIsValid(m);
    hide Valid, Fault, Siblings, BytesToHex;
    assert SetLeaves(h, encode, m.documents) == leaves;
  }

  lemma DigestHexIsSha256(d: Digest)
    ensures IsSha256(BytesToHex(d))
  {
  }

  function DigestOfHex(s: string): Digest
    requires IsSha256(s)
  {
    HexToBytes(s)
  }

  ghost predicate AllSha256(hashes: seq<string>) {
    forall i :: 0 <= i < |hashes| ==> IsSha256(hashes[i])
  }

  ghost function UnhexAll(hashes: seq<string>): (r: seq<Digest>)
    requires AllSha256(hashes)
    ensures |r| == |hashes| && forall i :: 0 <= i < |hashes| ==> r[i] == DigestOfHex(hashes[i])
  {
    seq<Digest>(|hashes|, i requires 0 <= i < |hashes| => DigestOfHex(hashes[i]))
  }

  /** Does the verifier accept a proof against a valid manifest? */
  ghost predicate Accepts(h: Hasher, encode: Encoding, m: Manifest, proof: Proof)
    requires Valid(m)
  {
    var leaves := SetLeaves(h, encode, m.documents);
    && proof.size == |m.documents| && 0 <= proof.index < proof.size
    && IsSha256(proof.leafHash) && proof.leafHash == BytesToHex(leaves[proof.index])
    && AllSha256(proof.siblings)
    && Fold(h, DigestOfHex(proof.leafHash), proof.index, proof.size, UnhexAll(proof.siblings)) == Ok(Root(h, leaves))
  }

  /** Checks a proof against a manifest; an invalid manifest is an error, a bad proof is just refused. */
  method VerifyInclusionProof(h: Hasher, encode: Encoding, m: Manifest, proof: Proof)
    returns (r: Result<bool, DocumentSetError>)
    ensures r.Err? <==> !Valid(m)
    ensures r.Err? ==> Fault(m) == Some(r.error)
    ensures r.Ok? ==> (r.value <==> Accepts(h, encode, m, proof))
  {
    hide Valid, Root, LeafHashes, HexToBytes, BytesToHex, SetLeaves;
    var fault := AssertDocumentSet(m);
    if fault.Some? { return Err(fault.value); }
    if proof.size != |m.documents| { return Ok(false); }
    if proof.index < 0 || proof.index >= proof.size { return Ok(false); }
    if !IsSha256(proof.leafHash) { return Ok(false); }
    var leaves := SetLeaves(h, encode, m.documents);
    var expectedLeaf := BytesToHex(leaves[proof.index]);
    if expectedLeaf != proof.leafHash { return Ok(false); }
    var siblings: seq<Digest> := [];
    for k := 0 to |proof.siblings|
      invariant AllSha256(proof.siblings[..k]) && siblings == UnhexAll(proof.siblings[..k])
    {
      var hash := proof.siblings[k];
      if !IsSha256(hash) {
        assert !AllSha256(proof.siblings);
        return Ok(false);
      }
      siblings := siblings + [DigestOfHex(hash)];
    }
    assert proof.siblings[..|proof.siblings|] == proof.siblings;
    var expected := DocumentSetHash(h, encode, m);
    match Fold(h, DigestOfHex(proof.leafHash), proof.index, proof.size, siblings)
    case Err(_) =>
      r := Ok(false);
    case Ok(root) =>
      DecodeHex(root);
      DecodeHex(Root(h, leaves));
      r := Ok(BytesToHex(root) == expected.value);
  }

  lemma HexOfUnhex(hashes: seq<string>, digests: seq<Digest>)
    requires AllSha256(hashes) && UnhexAll(hashes) == digests
    ensures hashes == HexAll(digests)
  {
    forall i | 0 <= i < |hashes|
      ensures hashes[i] == HexAll(digests)[i]
    {
      EncodeHex(hashes[i]);
    }
  }

  lemma UnhexOfHex(digests: seq<Digest>)
    ensures AllSha256(HexAll(digests)) && UnhexAll(HexAll(digests)) == digests
  {
    forall i | 0 <= i < |digests|
      ensures IsSha256(HexAll(digests)[i]) && DigestOfHex(HexAll(digests)[i]) == digests[i]
    {
      DecodeHex(digests[i]);
    }
  }

  /**
   The verifier accepts exactly the generated proof: it always accepts that one, and any other proof it
   accepts exhibits two different inputs with the same digest, one hashed folding the proof and one
   hashed computing the set's root.
   */
  lemma AcceptsExactlyGenerated(h: Hasher, encode: Encoding, m: Manifest, proof: Proof)
    requires Valid(m)
    ensures GenerateProof(h, encode, m, proof.index) == Ok(proof) ==> Accepts(h, encode, m, proof)
    ensures Accepts(h, encode, m, proof) ==>
      || GenerateProof(h, encode, m, proof.index) == Ok(proof)
      || Collides(h, FoldInputs(h, DigestOfHex(proof.leafHash), proof.index, proof.size, UnhexAll(proof.siblings)),
                  NodeInputs(h, SetLeaves(h, encode, m.documents)))
  {
    hide Valid, Fault, Accepts, GenerateProof, Collides;
    if GenerateProof(h, encode, m, proof.index) == Ok(proof) { AcceptsGenerated(h, encode, m, proof); }
    if Accepts(h, encode, m, proof) { AcceptedIsGenerated(h, encode, m, proof); }
  }

  lemma AcceptsGenerated(h: Hasher, encode: Encoding, m: Manifest, proof: Proof)
    requires Valid(m) && GenerateProof(h, encode, m, proof.index) == Ok(proof)
    ensures Accepts(h, encode, m, proof)
  {
    hide Valid, Fault, Fold, Root, BytesToHex, HexToBytes, LeafHashes, Siblings;
    FaultlessIsValid(m);
    var leaves := SetLeaves(h, encode, m.documents);
    var digests := Siblings(h, leaves, proof.index);
    UnhexOfHex(digests);
    DigestHexIsSha256(leaves[proof.index]);
    DecodeHex(leaves[proof.index]);
    GeneratedPathFolds(h, leaves, proof.index);
  }

  lemma AcceptedIsGenerated(h: Hasher, encode: Encoding, m: Manifest, proof: Proof)
    requires Valid(m) && Accepts(h, encode, m, proof)
    ensures
      || GenerateProof(h, encode, m, proof.index) == Ok(proof)
      || Collides(h, FoldInputs(h, DigestOfHex(proof.leafHash), proof.index, proof.size, UnhexAll(proof.siblings)),
                  NodeInputs(h, SetLeaves(h, encode, m.documents)))
  {
    hide Valid, Fault, Fold, Root, BytesToHex, HexToBytes, LeafHashes, Siblings, Collides, FoldInputs, NodeInputs;
    FaultlessIsValid(m);
    var leaves := SetLeaves(h, encode, m.documents);
    DecodeHex(leaves[proof.index]);
    PathBinds(h, leaves, DigestOfHex(proof.leafHash), proof.index, UnhexAll(proof.siblings));
    HexOfUnhex(proof.siblings, UnhexAll(proof.siblings));
  }

  /** Different valid leaves are written out differently. */
  ghost predicate Faithful(encode: Encoding) {
    forall a, b :: LeafFault(a).None? && LeafFault(b).None? && encode(a) == encode(b) ==> a == b
  }

  /** The canonical JSON of leaves as an encoding. */
  function Canonical(numerals: Numerals): Encoding {
    (leaf: Leaf) => LeafBytes(leaf, numerals)
  }

  lemma CanonicalIsFaithful(numerals: Numerals)
    requires IsNumerals(numerals)
    ensures Faithful(Canonical(numerals))
  {
    hide LeafFault, LeafBytes, IsNumerals;
    forall a, b | LeafFault(a).None? && LeafFault(b).None? && Canonical(numerals)(a) == Canonical(numerals)(b)
      ensures a == b
    {
      LeafBytesInjective(a, b, numerals);
    }
  }

  /** Under a faithful encoding the hash binds the whole set. */
  lemma FaithfulHashBinds(h: Hasher, encode: Encoding, a: Manifest, b: Manifest)
    requires Faithful(encode) && Valid(a) && Valid(b)
    requires DocumentSetHash(h, encode, a) == DocumentSetHash(h, encode, b)
    ensures
      || a == b
      || Collides(h, TreeInputs(h, Payloads(encode, a.documents)), TreeInputs(h, Payloads(encode, b.documents)))
  {
    FaultlessIsValid(a);
    FaultlessIsValid(b);
    var xs, ys := Payloads(encode, a.documents), Payloads(encode, b.documents);
    DecodeHex(TreeHash(h, xs));
    DecodeHex(TreeHash(h, ys));
    RootBinds(h, xs, ys);
    if xs == ys {
      forall i | 0 <= i < |a.documents|
        ensures a.documents[i] == b.documents[i]
      {
        assert xs[i] == ys[i];
        assert encode(a.documents[i]) == encode(b.documents[i]);
      }
    }
  }

  /**
   The hash binds the whole set: two valid sets of any sizes with the same hash are the same set, or two
   different inputs hashed for them have the same digest.
   */
  lemma HashBindsSet(h: Hasher, numerals: Numerals, a: Manifest, b: Manifest)
    requires IsNumerals(numerals) && Valid(a) && Valid(b)
    requires DocumentSetHash(h, Canonical(numerals), a) == DocumentSetHash(h, Canonical(numerals), b)
    ensures
      || a == b
      || Collides(h, TreeInputs(h, Payloads(Canonical(numerals), a.documents)),
                  TreeInputs(h, Payloads(Canonical(numerals), b.documents)))
  {
    hide IsNumerals, Valid, DocumentSetHash, Faithful, Collides;
    CanonicalIsFaithful(numerals);
    FaithfulHashBinds(h, Canonical(numerals), a, b);
  }
}
