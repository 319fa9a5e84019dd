/**
 The Merkle tree over the leaves of a document set: the shape of section 2.1 of RFC 6962 with an added
 domain tag, its audit paths, and what they bind. The hash is an arbitrary function to 32 bytes, so
 every security claim reads: the claim holds, or two of the inputs that were hashed collide.
 */
module Merkle {
  import opened Wrappers
  import opened Utf8

  type Bytes = seq<byte>

  type Digest = b: Bytes | |b| == 32 witness seq(32, _ => 0)

  /** The hash and the domain tag that separates these trees from others. */
  datatype Hasher = Hasher(digest: Bytes -> Digest, domain: Bytes)

  const LEAF_PREFIX: byte := 0
  const NODE_PREFIX: byte := 1

  function LeafInput(h: Hasher, payload: Bytes): Bytes {
    [LEAF_PREFIX] + h.domain + payload
  }

  function NodeInput(h: Hasher, left: Bytes, right: Bytes): Bytes {
    [NODE_PREFIX] + h.domain + left + right
  }

  lemma LeafInputInjective(h: Hasher, p: Bytes, q: Bytes)
    requires LeafInput(h, p) == LeafInput(h, q)
    ensures p == q
  {
    var k := 1 + |h.domain|;
    assert LeafInput(h, p)[k..] == p && LeafInput(h, q)[k..] == q;
  }

  lemma NodeInputInjective(h: Hasher, l: Digest, r: Digest, l': Digest, r': Digest)
    requires NodeInput(h, l, r) == NodeInput(h, l', r')
    ensures l == l' && r == r'
  {
    var k := 1 + |h.domain|;
    assert NodeInput(h, l, r)[k..k + 32] == l && NodeInput(h, l', r')[k..k + 32] == l';
    assert NodeInput(h, l, r)[k + 32..] == r && NodeInput(h, l', r')[k + 32..] == r';
  }

  /** The prefixes keep leaves and nodes apart. */
  lemma LeafIsNotNode(h: Hasher, p: Bytes, l: Bytes, r: Bytes)
    ensures LeafInput(h, p) != NodeInput(h, l, r)
  {
    assert LeafInput(h, p)[0] == LEAF_PREFIX && NodeInput(h, l, r)[0] == NODE_PREFIX;
  }

  // ----- The split -----

  function Pow2(e: nat): (p: nat)
    ensures p >= 1
  {
    if e == 0 then 1 else 2 * Pow2(e - 1)
  }

  function DoubleUntil(k: nat, n: nat): nat
    requires k >= 1
    decreases n - k
  {
    if k * 2 < n then DoubleUntil(k * 2, n) else k
  }

  /** Where a tree of `n` leaves splits. */
  function SplitPoint(n: nat): nat {
    DoubleUntil(1, n)
  }

  lemma {:induction false} DoublingSplits(k: nat, e: nat, n: nat)
    requires k == Pow2(e) && k < n
    ensures exists d :: DoubleUntil(k, n) == Pow2(d)
    ensures DoubleUntil(k, n) < n <= 2 * DoubleUntil(k, n)
    decreases n - k
  {
    if k * 2 < n {
      DoublingSplits(k * 2, e + 1, n);
    }
  }

  /** The split is a power of two `k` with `k < n <= 2k`. */
  lemma SplitPointIs(n: nat)
    requires n >= 2
    ensures exists d :: SplitPoint(n) == Pow2(d)
    ensures SplitPoint(n) < n <= 2 * SplitPoint(n)
  {
    assert Pow2(0) == 1;
    DoublingSplits(1, 0, n);
  }

  lemma {:induction false} Pow2Monotone(d: nat, e: nat)
    requires d < e
    ensures 2 * Pow2(d) <= Pow2(e)
  {
    if d + 1 < e {
      Pow2Monotone(d, e - 1);
    }
  }

  /** No other power of two splits like that. */
  lemma SplitPointUnique(n: nat, d: nat)
    requires n >= 2 && Pow2(d) < n <= 2 * Pow2(d)
    ensures SplitPoint(n) == Pow2(d)
  {
    SplitPointIs(n);
    var e: nat :| SplitPoint(n) == Pow2(e);
    if d < e {
      Pow2Monotone(d, e);
    } else if e < d {
      Pow2Monotone(e, d);
    }
  }

  method LargestPowerOfTwoLessThan(n: nat) returns (k: nat)
    ensures k == SplitPoint(n)
    ensures n >= 2 ==> k < n <= 2 * k && exists d :: k == Pow2(d)
  {
    k := 1;
    while k * 2 < n
      invariant k >= 1 && DoubleUntil(k, n) == SplitPoint(n)
      decreases n - k
    {
      k := k * 2;
    }
    if n >= 2 { SplitPointIs(n); }
  }

  // ----- Concatenating the parts of a hash input -----

  function Flatten(parts: seq<Bytes>): Bytes {
    if parts == [] then [] else Flatten(parts[..|parts| - 1]) + parts[|parts| - 1]
  }

  lemma {:induction false} FlattenGrows(parts: seq<Bytes>, k: nat)
    requires k <= |parts|
    ensures |Flatten(parts[..k])| <= |Flatten(parts)|
    decreases |parts|
  {
    if k < |parts| {
      FlattenGrows(parts[..|parts| - 1], k);
      assert parts[..|parts| - 1][..k] == parts[..k];
    } else {
      assert parts[..k] == parts;
    }
  }

  /** Hashes the concatenation of its parts, copied into one buffer. */
  method Sha256Parts(h: Hasher, parts: seq<Bytes>) returns (digest: Digest)
    ensures digest == h.digest(Flatten(parts))
  {
    hide Flatten;
    var size: nat := 0;
    FlattenNone(parts);
    for k := 0 to |parts|
      invariant size == |Flatten(parts[..k])|
    {
      FlattenSnoc(parts, k);
      size := size + |parts[k]|;
    }
    assert parts[..|parts|] == parts;
    var bytes := new byte[size](_ => 0);
    var offset: nat := 0;
    for k := 0 to |parts|
      invariant offset == |Flatten(parts[..k])| <= bytes.Length
      invariant bytes[..offset] == Flatten(parts[..k])
    {
      FlattenSnoc(parts, k);
      FlattenGrows(parts, k + 1);
      CopyInto(bytes, offset, parts[k]);
      offset := offset + |parts[k]|;
    }
    assert bytes[..] == bytes[..offset];
    digest := h.digest(bytes[..]);
  }

  lemma FlattenNone(parts: seq<Bytes>)
    ensures Flatten(parts[..0]) == []
  {
  }

  lemma FlattenSnoc(parts: seq<Bytes>, k: nat)
    requires k < |parts|
    ensures Flatten(parts[..k + 1]) == Flatten(parts[..k]) + parts[k]
  {
    assert parts[..k + 1][..k] == parts[..k];
  }

  /** Copies one part into the buffer behind the parts before it. */
  method CopyInto(bytes: array<byte>, offset: nat, part: Bytes)
    requires offset + |part| <= bytes.Length
    modifies bytes
    ensures bytes[..offset + |part|] == old(bytes[..offset]) + part
  {
    for i := 0 to |part|
      invariant bytes[..offset] == old(bytes[..offset])
      invariant bytes[offset..offset + i] == part[..i]
    {
      bytes[offset + i] := part[i];
    }
    assert bytes[..offset + |part|] == bytes[..offset] + bytes[offset..offset + |part|];
  }

  /** The digest of an inner node. */
  method HashNode(h: Hasher, left: Bytes, right: Bytes) returns (digest: Digest)
    ensures digest == h.digest([1] + h.domain + left + right)
  {
    var parts := [[NODE_PREFIX], h.domain, left, right];
    FlattenFour([NODE_PREFIX], h.domain, left, right);
    digest := Sha256Parts(h, parts);
  }

  lemma FlattenFour(a: Bytes, b: Bytes, c: Bytes, d: Bytes)
    ensures Flatten([a, b, c, d]) == a + b + c + d
  {
    assert [a, b, c, d][..3] == [a, b, c] && [a, b, c][..2] == [a, b] && [a, b][..1] == [a];
    assert Flatten([a]) == Flatten([a][..0]) + a == a;
    assert Flatten([a, b]) == a + b && Flatten([a, b, c]) == a + b + c;
  }

  // ----- Roots and audit paths -----

  function Root(h: Hasher, leaves: seq<Digest>): Digest
    requires leaves != []
  {
    if |leaves| == 1 then leaves[0]
    else
      SplitPointIs(|leaves|);
      var k := SplitPoint(|leaves|);
      h.digest(NodeInput(h, Root(h, leaves[..k]), Root(h, leaves[k..])))
  }

  /** The audit path of one leaf, from its neighbour up to the other half of the tree. */
  function Siblings(h: Hasher, leaves: seq<Digest>, index: nat): seq<Digest>
    requires index < |leaves|
  {
    if |leaves| == 1 then []
    else
      SplitPointIs(|leaves|);
      var k := SplitPoint(|leaves|);
      if index < k then Siblings(h, leaves[..k], index) + [Root(h, leaves[k..])]
      else Siblings(h, leaves[k..], index - k) + [Root(h, leaves[..k])]
  }

  datatype FoldError = ProofTruncated

  /** Folds an audit path back into a root; no bytes at all if the path is too long. */
  function Fold(h: Hasher, leafHash: Digest, index: nat, size: nat, siblings: seq<Digest>)
    : (r: Result<Bytes, FoldError>)
    requires index < size
    ensures r.Ok? ==> |r.value| == 0 || |r.value| == 32
    decreases size
  {
    if size == 1 then
      if siblings != [] then Ok([]) else Ok(leafHash)
    else if siblings == [] then Err(ProofTruncated)
    else
      SplitPointIs(size);
      var k := SplitPoint(size);
      var sibling, rest := siblings[|siblings| - 1], siblings[..|siblings| - 1];
      if index < k then
        match Fold(h, leafHash, index, k, rest)
        case Err(e) => Err(e)
        case Ok(left) => if |left| == 0 then Ok(left) else Ok(h.digest(NodeInput(h, left, sibling)))
      else
        match Fold(h, leafHash, index - k, size - k, rest)
        case Err(e) => Err(e)
        case Ok(right) => if |right| == 0 then Ok(right) else Ok(h.digest(NodeInput(h, sibling, right)))
  }

  // ----- One level of the tree -----

  /** The half of a tree in which a leaf lies, the other half, and the leaf's place in its own. */
  function OwnHalf(leaves: seq<Digest>, index: nat): (half: seq<Digest>)
    requires index < |leaves| && |leaves| >= 2
    ensures OwnIndex(|leaves|, index) < |half| == OwnSize(|leaves|, index) < |leaves|
  {
    SplitPointIs(|leaves|);
    if index < SplitPoint(|leaves|) then leaves[..SplitPoint(|leaves|)] else leaves[SplitPoint(|leaves|)..]
  }

  function OtherHalf(leaves: seq<Digest>, index: nat): (half: seq<Digest>)
    requires index < |leaves| && |leaves| >= 2
    ensures half != []
  {
    SplitPointIs(|leaves|);
    if index < SplitPoint(|leaves|) then leaves[SplitPoint(|leaves|)..] else leaves[..SplitPoint(|leaves|)]
  }

  predicate OnLeft(size: nat, index: nat) {
    index < SplitPoint(size)
  }

  function OwnIndex(size: nat, index: nat): nat {
    if OnLeft(size, index) then index else index - SplitPoint(size)
  }

  function OwnSize(size: nat, index: nat): (n: nat)
    requires index < size && size >= 2
    ensures OwnIndex(size, index) < n < size
  {
    SplitPointIs(size);
    if OnLeft(size, index) then SplitPoint(size) else size - SplitPoint(size)
  }

  /** The input hashed for a node from the digest on a leaf's side and the one on the other side. */
  function PairInput(h: Hasher, own: Bytes, other: Bytes, onLeft: bool): Bytes {
    if onLeft then NodeInput(h, own, other) else NodeInput(h, other, own)
  }

  lemma PairInputInjective(h: Hasher, a: Digest, b: Digest, a': Digest, b': Digest, onLeft: bool)
    requires PairInput(h, a, b, onLeft) == PairInput(h, a', b', onLeft)
    ensures a == a' && b == b'
  {
    hide NodeInput;
    if onLeft { NodeInputInjective(h, a, b, a', b'); } else { NodeInputInjective(h, b, a, b', a'); }
  }

  lemma RootStep(h: Hasher, leaves: seq<Digest>, index: nat)
    requires index < |leaves| && |leaves| >= 2
    ensures var own, other := Root(h, OwnHalf(leaves, index)), Root(h, OtherHalf(leaves, index));
            Root(h, leaves) == h.digest(PairInput(h, own, other, OnLeft(|leaves|, index)))
  {
    hide NodeInput, SplitPoint;
    SplitPointIs(|leaves|);
  }

  lemma SiblingsStep(h: Hasher, leaves: seq<Digest>, index: nat)
    requires index < |leaves| && |leaves| >= 2
    ensures Siblings(h, leaves, index)
         == Siblings(h, OwnHalf(leaves, index), OwnIndex(|leaves|, index)) + [Root(h, OtherHalf(leaves, index))]
  {
    hide Root, SplitPoint;
    SplitPointIs(|leaves|);
  }

  // ----- The tree in plain bytes -----

  /** The root over at least two leaves, split at the one power of two that is right. */
  lemma RootOfMore(h: Hasher, leaves: seq<Digest>, d: nat)
    requires Pow2(d) < |leaves| <= 2 * Pow2(d)
    ensures var k := Pow2(d);
            Root(h, leaves) == h.digest([1] + h.domain + Root(h, leaves[..k]) + Root(h, leaves[k..]))
  {
    SplitPointUnique(|leaves|, d);
    hide SplitPoint;
  }

  /** An audit path goes from the leaf up: the other half's root comes last. */
  lemma AuditPathIs(h: Hasher, leaves: seq<Digest>, index: nat, d: nat)
    requires index < |leaves| && Pow2(d) < |leaves| <= 2 * Pow2(d)
    ensures index < Pow2(d) ==>
      Siblings(h, leaves, index) == Siblings(h, leaves[..Pow2(d)], index) + [Root(h, leaves[Pow2(d)..])]
    ensures index >= Pow2(d) ==>
      Siblings(h, leaves, index) == Siblings(h, leaves[Pow2(d)..], index - Pow2(d)) + [Root(h, leaves[..Pow2(d)])]
  {
    SplitPointUnique(|leaves|, d);
    hide SplitPoint, Root;
  }

  /** A folded half joined with its sibling. */
  function FoldOnto(h: Hasher, folded: Result<Bytes, FoldError>, sibling: Digest, onLeft: bool)
    : Result<Bytes, FoldError>
  {
    match folded
    case Err(e) => Err(e)
    case Ok(own) => if |own| == 0 then Ok(own) else Ok(h.digest(PairInput(h, own, sibling, onLeft)))
  }

  lemma FoldStep(h: Hasher, leafHash: Digest, index: nat, size: nat, rest: seq<Digest>, sibling: Digest)
    requires index < size && size >= 2
    ensures var folded := Fold(h, leafHash, OwnIndex(size, index), OwnSize(size, index), rest);
            Fold(h, leafHash, index, size, rest + [sibling]) == FoldOnto(h, folded, sibling, OnLeft(size, index))
  {
    hide NodeInput, SplitPoint;
    SplitPointIs(size);
    assert (rest + [sibling])[..|rest|] == rest;
  }

  // ----- Completeness -----

  /** A generated path folds to the root. */
  lemma {:induction false} GeneratedPathFolds(h: Hasher, leaves: seq<Digest>, index: nat)
    requires index < |leaves|
    ensures Fold(h, leaves[index], index, |leaves|, Siblings(h, leaves, index)) == Ok(Root(h, leaves))
    decreases |leaves|
  {
    if |leaves| > 1 {
      var own, i := OwnHalf(leaves, index), OwnIndex(|leaves|, index);
      assert own[i] == leaves[index] by { SplitPointIs(|leaves|); }
      hide Fold, Siblings, Root, PairInput, OwnHalf, OtherHalf, OnLeft, OwnIndex, OwnSize;
      var other := OtherHalf(leaves, index);
      RootStep(h, leaves, index);
      SiblingsStep(h, leaves, index);
      FoldStep(h, leaves[index], index, |leaves|, Siblings(h, own, i), Root(h, other));
      GeneratedPathFolds(h, own, i);
    }
  }

  /** A path is at most as long as the tree is deep: the logarithm of its size, rounded up. */
  lemma {:induction false} PathLength(h: Hasher, leaves: seq<Digest>, index: nat, depth: nat)
    requires index < |leaves| <= Pow2(depth)
    ensures |Siblings(h, leaves, index)| <= depth
    decreases |leaves|
  {
    if |leaves| > 1 {
      SplitPointIs(|leaves|);
      var k := SplitPoint(|leaves|);
      var e: nat :| k == Pow2(e);
      if depth <= e {
        if depth < e { Pow2Monotone(depth, e); }
        assert false;
      }
      if e < depth - 1 { Pow2Monotone(e, depth - 1); }
      assert k <= Pow2(depth - 1) && |leaves| - k <= k;
      if index < k {
        PathLength(h, leaves[..k], index, depth - 1);
      } else {
        PathLength(h, leaves[k..], index - k, depth - 1);
      }
    }
  }

  // ----- Soundness, up to a collision among the inputs that were hashed -----

  ghost predicate Collision(h: Hasher, a: Bytes, b: Bytes) {
    a != b && h.digest(a) == h.digest(b)
  }

  /** One input from each of two computations, different but with the same digest. */
  ghost predicate Collides(h: Hasher, xs: set<Bytes>, ys: set<Bytes>) {
    exists a, b :: a in xs && b in ys && Collision(h, a, b)
  }

  /** The inputs hashed to compute a root from leaf digests. */
  ghost function NodeInputs(h: Hasher, leaves: seq<Digest>): set<Bytes>
    requires leaves != []
  {
    if |leaves| == 1 then {}
    else
      SplitPointIs(|leaves|);
      var k := SplitPoint(|leaves|);
      NodeInputs(h, leaves[..k]) + NodeInputs(h, leaves[k..]) +
      {NodeInput(h, Root(h, leaves[..k]), Root(h, leaves[k..]))}
  }

  /** The inputs hashed to fold a path. */
  ghost function FoldInputs(h: Hasher, leafHash: Digest, index: nat, size: nat, siblings: seq<Digest>): set<Bytes>
    requires index < size
    decreases size
  {
    if size == 1 || siblings == [] then {}
    else
      SplitPointIs(size);
      var k := SplitPoint(size);
      var sibling, rest := siblings[|siblings| - 1], siblings[..|siblings| - 1];
      if index < k then
        FoldInputs(h, leafHash, index, k, rest) +
        match Fold(h, leafHash, index, k, rest)
        case Err(_) => {}
        case Ok(left) => {NodeInput(h, left, sibling)}
      else
        FoldInputs(h, leafHash, index - k, size - k, rest) +
        match Fold(h, leafHash, index - k, size - k, rest)
        case Err(_) => {}
        case Ok(right) => {NodeInput(h, sibling, right)}
  }

  lemma CollidesGrows(h: Hasher, xs: set<Bytes>, ys: set<Bytes>, xs': set<Bytes>, ys': set<Bytes>)
    requires Collides(h, xs, ys) && xs <= xs' && ys <= ys'
    ensures Collides(h, xs', ys')
  {
    var a, b :| a in xs && b in ys && Collision(h, a, b);
    assert a in xs' && b in ys';
  }

  /**
   A path that folds to the root is the generated one and starts at the right leaf, or folding it and
   computing the root hashed a colliding pair.
   */
  lemma {:induction false} PathBinds(h: Hasher, leaves: seq<Digest>, leafHash: Digest, index: nat,
                                     siblings: seq<Digest>)
    requires index < |leaves|
    requires Fold(h, leafHash, index, |leaves|, siblings) == Ok(Root(h, leaves))
    ensures (leafHash == leaves[index] && siblings == Siblings(h, leaves, index))
         || Collides(h, FoldInputs(h, leafHash, index, |leaves|, siblings), NodeInputs(h, leaves))
    decreases |leaves|
  {
    if |leaves| > 1 && siblings != [] {
      var own, i, n := OwnHalf(leaves, index), OwnIndex(|leaves|, index), OwnSize(|leaves|, index);
      assert own[i] == leaves[index] by { SplitPointIs(|leaves|); }
      hide Fold, Siblings, Root, FoldInputs, NodeInputs, Collides, PairInput;
      hide OwnHalf, OtherHalf, OnLeft, OwnIndex, OwnSize;
      var other, onLeft := OtherHalf(leaves, index), OnLeft(|leaves|, index);
      var sibling, rest := siblings[|siblings| - 1], siblings[..|siblings| - 1];
      var inputs, tree := FoldInputs(h, leafHash, index, |leaves|, siblings), NodeInputs(h, leaves);
      assert siblings == rest + [sibling];
      RootStep(h, leaves, index);
      SiblingsStep(h, leaves, index);
      FoldStep(h, leafHash, index, |leaves|, rest, sibling);
      NodeInputsStep(h, leaves, index);
      FoldInputsStep(h, leafHash, index, |leaves|, rest, sibling);
      var folded := Fold(h, leafHash, i, n, rest).value;
      assert |folded| == 32;
      if PairInput(h, folded, sibling, onLeft) == PairInput(h, Root(h, own), Root(h, other), onLeft) {
        PairInputInjective(h, folded, sibling, Root(h, own), Root(h, other), onLeft);
        PathBinds(h, own, leafHash, i, rest);
        if Collides(h, FoldInputs(h, leafHash, i, n, rest), NodeInputs(h, own)) {
          CollidesGrows(h, FoldInputs(h, leafHash, i, n, rest), NodeInputs(h, own), inputs, tree);
        }
      } else {
        TwoCollide(h, PairInput(h, folded, sibling, onLeft), PairInput(h, Root(h, own), Root(h, other), onLeft),
                   inputs, tree);
      }
    }
  }

  lemma TwoCollide(h: Hasher, a: Bytes, b: Bytes, xs: set<Bytes>, ys: set<Bytes>)
    requires a in xs && b in ys && a != b && h.digest(a) == h.digest(b)
    ensures Collides(h, xs, ys)
  {
    assert Collision(h, a, b);
  }

  lemma NodeInputsStep(h: Hasher, leaves: seq<Digest>, index: nat)
    requires index < |leaves| && |leaves| >= 2
    ensures var own, other := OwnHalf(leaves, index), OtherHalf(leaves, index);
            && NodeInputs(h, own) <= NodeInputs(h, leaves)
            && PairInput(h, Root(h, own), Root(h, other), OnLeft(|leaves|, index)) in NodeInputs(h, leaves)
  {
    hide NodeInput, SplitPoint, Root;
    SplitPointIs(|leaves|);
  }

  lemma FoldInputsStep(h: Hasher, leafHash: Digest, index: nat, size: nat, rest: seq<Digest>, sibling: Digest)
    requires index < size && size >= 2
    ensures var i, n := OwnIndex(size, index), OwnSize(size, index);
            var inputs := FoldInputs(h, leafHash, index, size, rest + [sibling]);
            && FoldInputs(h, leafHash, i, n, rest) <= inputs
            && (Fold(h, leafHash, i, n, rest).Ok? ==>
                  PairInput(h, Fold(h, leafHash, i, n, rest).value, sibling, OnLeft(size, index)) in inputs)
  {
    hide NodeInput, SplitPoint, Fold;
    SplitPointIs(size);
    assert (rest + [sibling])[..|rest|] == rest;
  }

  // ----- The root binds the whole list of payloads -----

  function LeafHashes(h: Hasher, payloads: seq<Bytes>): (leaves: seq<Digest>)
    ensures |leaves| == |payloads|
    ensures forall i :: 0 <= i < |payloads| ==> leaves[i] == h.digest(LeafInput(h, payloads[i]))
  {
    seq<Digest>(|payloads|, i requires 0 <= i < |payloads| => h.digest(LeafInput(h, payloads[i])))
  }

  function TreeHash(h: Hasher, payloads: seq<Bytes>): Digest
    requires payloads != []
  {
    Root(h, LeafHashes(h, payloads))
  }

  ghost function LeafInputs(h: Hasher, payloads: seq<Bytes>): set<Bytes> {
    set i | 0 <= i < |payloads| :: LeafInput(h, payloads[i])
  }

  /** Every input hashed to compute a tree hash. */
  ghost function TreeInputs(h: Hasher, payloads: seq<Bytes>): set<Bytes>
    requires payloads != []
  {
    LeafInputs(h, payloads) + NodeInputs(h, LeafHashes(h, payloads))
  }

  lemma SplitTree(h: Hasher, payloads: seq<Bytes>)
    requires |payloads| >= 2
    ensures var k := SplitPoint(|payloads|);
      && 0 < k < |payloads|
      && TreeHash(h, payloads) == h.digest(NodeInput(h, TreeHash(h, payloads[..k]), TreeHash(h, payloads[k..])))
      && NodeInput(h, TreeHash(h, payloads[..k]), TreeHash(h, payloads[k..])) in TreeInputs(h, payloads)
      && TreeInputs(h, payloads[..k]) <= TreeInputs(h, payloads)
      && TreeInputs(h, payloads[k..]) <= TreeInputs(h, payloads)
  {
    SplitPointIs(|payloads|);
    var k, leaves := SplitPoint(|payloads|), LeafHashes(h, payloads);
    assert leaves[..k] == LeafHashes(h, payloads[..k]);
    assert leaves[k..] == LeafHashes(h, payloads[k..]);
    forall x | x in LeafInputs(h, payloads[..k])
      ensures x in LeafInputs(h, payloads)
    {
      var i :| 0 <= i < k && x == LeafInput(h, payloads[..k][i]);
      assert payloads[..k][i] == payloads[i];
    }
    forall x | x in LeafInputs(h, payloads[k..])
      ensures x in LeafInputs(h, payloads)
    {
      var i :| 0 <= i < |payloads| - k && x == LeafInput(h, payloads[k..][i]);
      assert payloads[k..][i] == payloads[k + i];
    }
  }

  lemma SingleTree(h: Hasher, payloads: seq<Bytes>)
    requires |payloads| == 1
    ensures TreeHash(h, payloads) == h.digest(LeafInput(h, payloads[0]))
    ensures LeafInput(h, payloads[0]) in TreeInputs(h, payloads)
  {
    assert LeafInput(h, payloads[0]) in LeafInputs(h, payloads);
  }

  /** The hash of one payload is that of a zero byte, the domain and the payload. */
  lemma TreeHashOfOne(h: Hasher, payload: Bytes)
    ensures TreeHash(h, [payload]) == h.digest([0] + h.domain + payload)
  {
    assert LeafHashes(h, [payload])[0] == h.digest(LeafInput(h, payload));
  }

  /** The hash of more payloads is that of a one byte, the domain and the hashes of the two halves in order. */
  lemma TreeHashOfMore(h: Hasher, payloads: seq<Bytes>, d: nat)
    requires Pow2(d) < |payloads| <= 2 * Pow2(d)
    ensures var k := Pow2(d);
            TreeHash(h, payloads) == h.digest([1] + h.domain + TreeHash(h, payloads[..k]) + TreeHash(h, payloads[k..]))
  {
    hide Root;
    var k, leaves := Pow2(d), LeafHashes(h, payloads);
    RootOfMore(h, leaves, d);
    assert leaves[..k] == LeafHashes(h, payloads[..k]);
    assert leaves[k..] == LeafHashes(h, payloads[k..]);
  }

  /**
   Two lists of payloads, of the same or different lengths, with the same tree hash are equal, or
   computing the two hashes collided.
   */
  lemma {:induction false} RootBinds(h: Hasher, xs: seq<Bytes>, ys: seq<Bytes>)
    requires xs != [] && ys != [] && TreeHash(h, xs) == TreeHash(h, ys)
    ensures xs == ys || Collides(h, TreeInputs(h, xs), TreeInputs(h, ys))
    decreases |xs| + |ys|
  {
    hide LeafInput, NodeInput, SplitPoint;
    var a, b := TopInput(h, xs), TopInput(h, ys);
    if a != b {
      assert Collision(h, a, b);
    } else if |xs| == 1 && |ys| == 1 {
      LeafInputInjective(h, xs[0], ys[0]);
    } else if |xs| > 1 && |ys| > 1 {
      SplitTree(h, xs);
      SplitTree(h, ys);
      var k, l := SplitPoint(|xs|), SplitPoint(|ys|);
      NodeInputInjective(h, TreeHash(h, xs[..k]), TreeHash(h, xs[k..]), TreeHash(h, ys[..l]), TreeHash(h, ys[l..]));
      RootBinds(h, xs[..k], ys[..l]);
      RootBinds(h, xs[k..], ys[l..]);
      if Collides(h, TreeInputs(h, xs[..k]), TreeInputs(h, ys[..l])) {
        CollidesGrows(h, TreeInputs(h, xs[..k]), TreeInputs(h, ys[..l]), TreeInputs(h, xs), TreeInputs(h, ys));
      } else if Collides(h, TreeInputs(h, xs[k..]), TreeInputs(h, ys[l..])) {
        CollidesGrows(h, TreeInputs(h, xs[k..]), TreeInputs(h, ys[l..]), TreeInputs(h, xs), TreeInputs(h, ys));
      } else {
        assert xs == xs[..k] + xs[k..] && ys == ys[..l] + ys[l..];
      }
    }
  }

  /** The last input hashed for a tree: its only leaf, or its top node. */
  ghost function TopInput(h: Hasher, payloads: seq<Bytes>): (x: Bytes)
    requires payloads != []
    ensures x in TreeInputs(h, payloads) && h.digest(x) == TreeHash(h, payloads)
    ensures |x| > 0 && (x[0] == LEAF_PREFIX) == (|payloads| == 1)
  {
    if |payloads| == 1 then
      SingleTree(h, payloads);
      LeafInput(h, payloads[0])
    else
      SplitTree(h, payloads);
      var k := SplitPoint(|payloads|);
      NodeInput(h, TreeHash(h, payloads[..k]), TreeHash(h, payloads[k..]))
  }
}
