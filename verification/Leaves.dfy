/** The leaves of a document set: Markdown documents by path and digest, PDFs by digest and size. */
module Leaves {
  import opened Wrappers

  /** Powers of two, negative ones included. */
  ghost function TwoTo(e: int): real
    decreases if e >= 0 then e else -e
  {
    if e == 0 then 1.0 else if e > 0 then 2.0 * TwoTo(e - 1) else TwoTo(e + 1) / 2.0
  }

  /** The value of a finite double-precision number: 53 significant bits and a bounded exponent. */
  ghost predicate IsDoubleAs(x: real, m: int, e: int) {
    -0x20_0000_0000_0000 < m < 0x20_0000_0000_0000 && -1074 <= e <= 971 && x == m as real * TwoTo(e)
  }

  ghost predicate IsDouble(x: real) {
    exists m, e :: IsDoubleAs(x, m, e)
  }

  function ZeroDouble(): (x: real)
    ensures IsDouble(x)
  {
    assert IsDoubleAs(0.0, 0, 0);
    0.0
  }

  /** What a number that is neither infinite nor NaN can be. */
  type Double = x: real | IsDouble(x) witness ZeroDouble()

  datatype Leaf =
    | Markdown(id: string, position: int, title: string, path: string, contentSha256: string)
    | Pdf(id: string, position: int, title: string, sha256: string,
          byteSize: int, pageCount: int, pageWidth: Double, pageHeight: Double)

  /** A leaf moved to a position. */
  function At(leaf: Leaf, position: int): Leaf {
    leaf.(position := position)
  }

  function Ids(leaves: seq<Leaf>): (ids: seq<string>)
    ensures |ids| == |leaves| && forall i :: 0 <= i < |leaves| ==> ids[i] == leaves[i].id
  {
    seq(|leaves|, i requires 0 <= i < |leaves| => leaves[i].id)
  }

  ghost predicate UniqueIds(leaves: seq<Leaf>) {
    forall i, j :: 0 <= i < j < |leaves| ==> leaves[i].id != leaves[j].id
  }

  /** The last leaf with an id, as a map built from the leaves in order would give. */
  function ById(leaves: seq<Leaf>, id: string): Option<Leaf> {
    if leaves == [] then None
    else if leaves[|leaves| - 1].id == id then Some(leaves[|leaves| - 1])
    else ById(leaves[..|leaves| - 1], id)
  }

  predicate HasId(leaves: seq<Leaf>, id: string) {
    exists i :: 0 <= i < |leaves| && leaves[i].id == id
  }

  lemma {:induction false} ByIdFinds(leaves: seq<Leaf>, id: string)
    ensures ById(leaves, id).Some? <==> HasId(leaves, id)
    ensures ById(leaves, id).Some? ==> ById(leaves, id).value in leaves && ById(leaves, id).value.id == id
  {
    if leaves != [] {
      var last := |leaves| - 1;
      ByIdFinds(leaves[..last], id);
      if leaves[last].id != id && HasId(leaves, id) {
        var i :| 0 <= i < |leaves| && leaves[i].id == id;
        assert leaves[..last][i].id == id;
      }
    }
  }

  lemma ByIdUnique(leaves: seq<Leaf>, i: nat)
    requires UniqueIds(leaves) && i < |leaves|
    ensures ById(leaves, leaves[i].id) == Some(leaves[i])
  {
    assert HasId(leaves, leaves[i].id);
    ByIdFinds(leaves, leaves[i].id);
    var leaf := ById(leaves, leaves[i].id).value;
    var j :| 0 <= j < |leaves| && leaves[j] == leaf;
    assert j == i;
  }

  ghost predicate IsIndex(byId: map<string, Leaf>, leaves: seq<Leaf>) {
    forall id :: ById(leaves, id) == if id in byId then Some(byId[id]) else None
  }

  /** Leaves by id; with repeated ids the last one wins. */
  method IndexById(leaves: seq<Leaf>) returns (byId: map<string, Leaf>)
    ensures IsIndex(byId, leaves)
  {
    byId := map[];
    for i := 0 to |leaves|
      invariant IsIndex(byId, leaves[..i])
    {
      assert leaves[..i + 1][..i] == leaves[..i];
      byId := byId[leaves[i].id := leaves[i]];
    }
    assert leaves[..|leaves|] == leaves;
  }

  function IdSet(leaves: seq<Leaf>): set<string> {
    set i | 0 <= i < |leaves| :: leaves[i].id
  }

  lemma HasIdIsInIdSet(leaves: seq<Leaf>, id: string)
    ensures id in IdSet(leaves) <==> HasId(leaves, id)
  {
  }

  lemma IdSetSnoc(leaves: seq<Leaf>)
    requires leaves != []
    ensures IdSet(leaves) == IdSet(leaves[..|leaves| - 1]) + {leaves[|leaves| - 1].id}
  {
    var before, last := leaves[..|leaves| - 1], leaves[|leaves| - 1].id;
    forall id
      ensures id in IdSet(leaves) <==> id in IdSet(before) + {last}
    {
      if id in IdSet(leaves) {
        var i :| 0 <= i < |leaves| && leaves[i].id == id;
        assert i < |before| ==> before[i].id == id;
      }
      if id in IdSet(before) {
        var i :| 0 <= i < |before| && before[i].id == id;
        assert leaves[i].id == id;
      }
    }
  }

  /** Unique ids make as many ids as leaves. */
  lemma {:induction false} IdSetSize(leaves: seq<Leaf>)
    requires UniqueIds(leaves)
    ensures |IdSet(leaves)| == |leaves|
  {
    if leaves != [] {
      var before, last := leaves[..|leaves| - 1], leaves[|leaves| - 1].id;
      IdSetSize(before);
      IdSetSnoc(leaves);
      HasIdIsInIdSet(before, last);
      assert last !in IdSet(before);
    }
  }
}
