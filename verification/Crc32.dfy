/**
 The CRC-32 of the PNG specification, section 5.5, computed bit by bit on a 32-bit register: the loops,
 the register as a function of the bytes, and what a checksum can tell apart.
 */
module Crc32 {

  const POLYNOMIAL: bv32 := 0xedb8_8320

  predicate Low(c: bv32) {
    c & 1 == 1
  }

  function Half(c: bv32): bv32 {
    c >> 1
  }

  /** Addition of polynomials over the two-element field. */
  function Plus(c: bv32, d: bv32): bv32 {
    c ^ d
  }

  function Wide(b: bv8): bv32 {
    b as bv32
  }

  /** One bit: shift out the lowest bit, and take the polynomial off if it was set. */
  function Shift(c: bv32): bv32 {
    if Low(c) then Plus(Half(c), POLYNOMIAL) else Half(c)
  }

  function Shifts(c: bv32, n: nat): bv32
    decreases n
  {
    if n == 0 then c else Shifts(Shift(c), n - 1)
  }

  /** The register after eight bits of a byte. */
  function Update(c: bv32, b: bv8): bv32 {
    Shifts(Plus(c, Wide(b)), 8)
  }

  function Register(c: bv32, bytes: seq<bv8>): bv32
    decreases |bytes|
  {
    if bytes == [] then c else Register(Update(c, bytes[0]), bytes[1..])
  }

  const ONES: bv32 := 0xffff_ffff

  function Checksum(bytes: seq<bv8>): bv32 {
    Plus(Register(ONES, bytes), ONES)
  }

  method Crc32(bytes: seq<bv8>) returns (checksum: bv32)
    ensures checksum == Checksum(bytes)
  {
    hide Shift, Plus, Wide;
    var crc := ONES;
    assert bytes[0..] == bytes;
    for i := 0 to |bytes|
      invariant Register(crc, bytes[i..]) == Register(ONES, bytes)
    {
      assert bytes[i..][0] == bytes[i] && bytes[i..][1..] == bytes[i + 1..];
      ghost var whole := Update(crc, bytes[i]);
      crc := Plus(crc, Wide(bytes[i]));
      for bit := 0 to 8
        invariant Shifts(crc, 8 - bit) == whole
      {
        crc := Shift(crc);
      }
    }
    assert bytes[|bytes|..] == [];
    checksum := Plus(crc, ONES);
  }

  // ----- Algebra of the register -----

  lemma PlusLaws(c: bv32, d: bv32, e: bv32)
    ensures Plus(c, d) == Plus(d, c)
    ensures Plus(Plus(c, d), e) == Plus(c, Plus(d, e))
  {
  }

  lemma PlusSelf(c: bv32)
    ensures Plus(c, c) == 0 && Plus(c, 0) == c && Plus(0, c) == c
  {
  }

  lemma PlusCancels(c: bv32, d: bv32, e: bv32)
    ensures Plus(c, e) == Plus(d, e) ==> c == d
    ensures Plus(e, c) == Plus(e, d) ==> c == d
  {
  }

  /** Swaps the inner terms of a sum of sums. */
  lemma PlusSwap(c: bv32, d: bv32, e: bv32, f: bv32)
    ensures Plus(Plus(c, d), Plus(e, f)) == Plus(Plus(c, e), Plus(d, f))
  {
    hide Plus;
    PlusLaws(Plus(c, d), e, f);
    PlusLaws(c, d, e);
    PlusLaws(d, e, c);
    PlusLaws(c, e, d);
    PlusLaws(Plus(c, e), d, f);
  }

  lemma LowLinear(c: bv32, d: bv32)
    ensures Low(Plus(c, d)) <==> (Low(c) != Low(d))
  {
  }

  lemma HalfLinear(c: bv32, d: bv32)
    ensures Half(Plus(c, d)) == Plus(Half(c), Half(d))
  {
  }

  lemma WideLinear(a: bv8, b: bv8)
    ensures Wide(a ^ b) == Plus(Wide(a), Wide(b))
  {
  }

  // ----- The shift loses nothing and is linear -----

  lemma ShiftInjective(c: bv32, d: bv32)
    requires Shift(c) == Shift(d)
    ensures c == d
  {
  }

  lemma ShiftLinear(c: bv32, d: bv32)
    ensures Shift(Plus(c, d)) == Plus(Shift(c), Shift(d))
  {
    hide Low, Half, Plus;
    var h, k := Half(c), Half(d);
    LowLinear(c, d);
    HalfLinear(c, d);
    PlusLaws(h, POLYNOMIAL, k);
    PlusLaws(k, POLYNOMIAL, h);
    PlusLaws(h, k, POLYNOMIAL);
    PlusSwap(h, POLYNOMIAL, k, POLYNOMIAL);
    PlusSelf(POLYNOMIAL);
    PlusSelf(Plus(h, k));
  }

  lemma {:induction false} ShiftsInjective(c: bv32, d: bv32, n: nat)
    requires Shifts(c, n) == Shifts(d, n)
    ensures c == d
    decreases n
  {
    hide Shift;
    if n > 0 {
      ShiftsInjective(Shift(c), Shift(d), n - 1);
      ShiftInjective(c, d);
    }
  }

  lemma {:induction false} ShiftsLinear(c: bv32, d: bv32, n: nat)
    ensures Shifts(Plus(c, d), n) == Plus(Shifts(c, n), Shifts(d, n))
    decreases n
  {
    hide Shift, Plus;
    if n > 0 {
      ShiftLinear(c, d);
      ShiftsLinear(Shift(c), Shift(d), n - 1);
    }
  }

  // ----- Which byte strings share a checksum -----

  /** For each byte string the register at the end is a bijection of the register at the start. */
  lemma {:induction false} RegisterInjective(c: bv32, d: bv32, bytes: seq<bv8>)
    requires Register(c, bytes) == Register(d, bytes)
    ensures c == d
    decreases |bytes|
  {
    hide Shifts, Plus, Wide;
    if bytes != [] {
      var b := bytes[0];
      RegisterInjective(Update(c, b), Update(d, b), bytes[1..]);
      ShiftsInjective(Plus(c, Wide(b)), Plus(d, Wide(b)), 8);
      PlusCancels(c, d, Wide(b));
    }
  }

  lemma {:induction false} RegisterConcat(c: bv32, bytes: seq<bv8>, more: seq<bv8>)
    ensures Register(c, bytes + more) == Register(Register(c, bytes), more)
    decreases |bytes|
  {
    hide Update;
    if bytes == [] {
      assert bytes + more == more;
    } else {
      assert (bytes + more)[1..] == bytes[1..] + more;
      RegisterConcat(Update(c, bytes[0]), bytes[1..], more);
    }
  }

  function Xor(a: seq<bv8>, b: seq<bv8>): (x: seq<bv8>)
    requires |a| == |b|
    ensures |x| == |a| && forall i :: 0 <= i < |a| ==> x[i] == a[i] ^ b[i]
  {
    seq(|a|, i requires 0 <= i < |a| => a[i] ^ b[i])
  }

  lemma UpdateLinear(c: bv32, d: bv32, a: bv8, b: bv8)
    ensures Update(Plus(c, d), a ^ b) == Plus(Update(c, a), Update(d, b))
  {
    hide Shifts, Plus, Wide;
    WideLinear(a, b);
    PlusSwap(c, d, Wide(a), Wide(b));
    ShiftsLinear(Plus(c, Wide(a)), Plus(d, Wide(b)), 8);
  }

  lemma {:induction false} RegisterLinear(c: bv32, d: bv32, a: seq<bv8>, b: seq<bv8>)
    requires |a| == |b|
    ensures Register(Plus(c, d), Xor(a, b)) == Plus(Register(c, a), Register(d, b))
    decreases |a|
  {
    hide Update, Plus;
    if a != [] {
      UpdateLinear(c, d, a[0], b[0]);
      assert Xor(a, b)[1..] == Xor(a[1..], b[1..]);
      RegisterLinear(Update(c, a[0]), Update(d, b[0]), a[1..], b[1..]);
    }
  }

  /** Strings of one length share a checksum exactly when their difference leaves a cleared register clear. */
  lemma CollidesExactlyWhen(a: seq<bv8>, b: seq<bv8>)
    requires |a| == |b|
    ensures Checksum(a) == Checksum(b) <==> Register(0, Xor(a, b)) == 0
  {
    hide Register, Plus;
    RegisterLinear(ONES, ONES, a, b);
    var r, s := Register(ONES, a), Register(ONES, b);
    PlusSelf(ONES);
    PlusSelf(s);
    PlusCancels(r, s, ONES);
    PlusCancels(r, s, s);
  }

  // ----- Changes within four bytes -----

  function Up(x: bv32): bv32 {
    x << 8
  }

  /** Bytes as the register sees them, the first byte lowest. */
  function Word(w: seq<bv8>): bv32 {
    if w == [] then 0 else Plus(Wide(w[0]), Up(Word(w[1..])))
  }

  predicate Fits(x: bv32, n: nat) {
    if n == 0 then x == 0
    else if n == 1 then x >> 8 == 0
    else if n == 2 then x >> 16 == 0
    else if n == 3 then x >> 24 == 0
    else true
  }

  lemma FitsUp(b: bv8, x: bv32, n: nat)
    requires Fits(x, n)
    ensures Fits(Plus(Wide(b), Up(x)), n + 1)
  {
  }

  lemma {:induction false} WordFits(w: seq<bv8>)
    ensures Fits(Word(w), |w|)
  {
    hide Fits, Plus, Up, Wide;
    if w == [] {
      FitsNone();
    } else {
      WordFits(w[1..]);
      FitsUp(w[0], Word(w[1..]), |w| - 1);
    }
  }

  lemma FitsNone()
    ensures Fits(0, 0)
  {
  }

  lemma SplitWord(b: bv8, x: bv32, b': bv8, x': bv32, n: nat)
    requires n <= 3 && Fits(x, n) && Fits(x', n) && Plus(Wide(b), Up(x)) == Plus(Wide(b'), Up(x'))
    ensures b == b' && x == x'
  {
  }

  lemma {:induction false} WordInjective(w: seq<bv8>, w': seq<bv8>)
    requires |w| == |w'| <= 4 && Word(w) == Word(w')
    ensures w == w'
  {
    hide Fits, Plus, Up, Wide;
    if w != [] {
      WordFits(w[1..]);
      WordFits(w'[1..]);
      SplitWord(w[0], Word(w[1..]), w'[0], Word(w'[1..]), |w| - 1);
      WordInjective(w[1..], w'[1..]);
    }
  }

  lemma ShiftEven(x: bv32)
    requires !Low(x)
    ensures Shift(x) == Half(x)
  {
  }

  function Halves(x: bv32, n: nat): bv32
    decreases n
  {
    if n == 0 then x else Halves(Half(x), n - 1)
  }

  predicate LowClear(x: bv32, n: nat)
    decreases n
  {
    n == 0 || (!Low(x) && LowClear(Half(x), n - 1))
  }

  lemma {:induction false} ShiftsClear(x: bv32, n: nat)
    requires LowClear(x, n)
    ensures Shifts(x, n) == Halves(x, n)
    decreases n
  {
    hide Shift, Half, Low;
    if n > 0 {
      ShiftEven(x);
      ShiftsClear(Half(x), n - 1);
    }
  }

  lemma LowByteClear(x: bv32)
    requires x & 0xff == 0
    ensures LowClear(x, 8)
  {
  }

  lemma EightHalves(x: bv32)
    ensures Halves(x, 8) == x >> 8
  {
  }

  /** Eight shifts move a word down a byte if its lowest byte is clear. */
  lemma ShiftsByte(x: bv32)
    requires x & 0xff == 0
    ensures Shifts(x, 8) == x >> 8
  {
    hide Shifts, Halves, LowClear;
    LowByteClear(x);
    ShiftsClear(x, 8);
    EightHalves(x);
  }

  lemma UpThenDown(x: bv32)
    requires Fits(x, 3)
    ensures Up(x) & 0xff == 0 && Up(x) >> 8 == x
  {
  }

  /** What enters after eight shifts may enter a byte higher before them. */
  lemma EnterEarlier(c: bv32, x: bv32)
    requires Fits(x, 3)
    ensures Plus(Shifts(c, 8), x) == Shifts(Plus(c, Up(x)), 8)
  {
    hide Shifts, Plus, Up, Fits;
    UpThenDown(x);
    ShiftsByte(Up(x));
    ShiftsLinear(c, Up(x), 8);
  }

  function ShiftsBytes(c: bv32, n: nat): bv32
    decreases n
  {
    if n == 0 then c else ShiftsBytes(Shifts(c, 8), n - 1)
  }

  lemma {:induction false} ShiftsBytesInjective(c: bv32, d: bv32, n: nat)
    requires ShiftsBytes(c, n) == ShiftsBytes(d, n)
    ensures c == d
    decreases n
  {
    hide Shifts;
    if n > 0 {
      ShiftsBytesInjective(Shifts(c, 8), Shifts(d, 8), n - 1);
      ShiftsInjective(c, d, 8);
    }
  }

  lemma FitsMore(x: bv32, n: nat)
    requires n <= 3 && Fits(x, n)
    ensures Fits(x, 3)
  {
  }

  /** Up to four bytes enter the register as one word, all before the first shift. */
  lemma {:induction false} RegisterOfWord(c: bv32, w: seq<bv8>)
    requires |w| <= 4
    ensures Register(c, w) == ShiftsBytes(Plus(c, Word(w)), |w|)
    decreases |w|
  {
    hide Shifts, Plus, Up, Wide, Fits;
    if w == [] {
      PlusSelf(c);
    } else {
      var b, x := Wide(w[0]), Word(w[1..]);
      WordFits(w[1..]);
      FitsMore(x, |w| - 1);
      EnterEarlier(Plus(c, b), x);
      RegisterOfWord(Update(c, w[0]), w[1..]);
      PlusLaws(c, b, Up(x));
    }
  }

  /** A change within four consecutive bytes, in a string of any length, changes the checksum. */
  lemma BurstChangesChecksum(before: seq<bv8>, w: seq<bv8>, w': seq<bv8>, after: seq<bv8>)
    requires |w| == |w'| <= 4
    ensures Checksum(before + w + after) == Checksum(before + w' + after) <==> w == w'
  {
    hide Register, Plus, ShiftsBytes;
    var c := Register(ONES, before);
    RegisterConcat(ONES, before + w, after);
    RegisterConcat(ONES, before + w', after);
    RegisterConcat(ONES, before, w);
    RegisterConcat(ONES, before, w');
    var d, d' := Register(c, w), Register(c, w');
    if Checksum(before + w + after) == Checksum(before + w' + after) {
      PlusCancels(Register(d, after), Register(d', after), ONES);
      RegisterInjective(d, d', after);
      RegisterOfWord(c, w);
      RegisterOfWord(c, w');
      ShiftsBytesInjective(Plus(c, Word(w)), Plus(c, Word(w')), |w|);
      PlusCancels(Word(w), Word(w'), c);
      WordInjective(w, w');
    }
  }

  /** Changing one byte changes the checksum. */
  lemma OneByteChangesChecksum(bytes: seq<bv8>, i: nat, b: bv8)
    requires i < |bytes| && bytes[i] != b
    ensures Checksum(bytes[i := b]) != Checksum(bytes)
  {
    hide Checksum;
    assert [b][0] != [bytes[i]][0];
    BurstChangesChecksum(bytes[..i], [b], [bytes[i]], bytes[i + 1..]);
    assert bytes[..i] + [b] + bytes[i + 1..] == bytes[i := b];
    assert bytes[..i] + [bytes[i]] + bytes[i + 1..] == bytes;
  }
}
