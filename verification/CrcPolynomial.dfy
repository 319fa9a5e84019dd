/**
 The checksum is what section 5.5 of the PNG specification defines: the remainder of the message,
 as a polynomial over the two-element field, divided by the generator
 x^32 + x^26 + x^23 + x^22 + x^16 + x^12 + x^11 + x^10 + x^8 + x^7 + x^5 + x^4 + x^2 + x + 1.
 Polynomials are lists of coefficients, highest degree first.
 */
module CrcPolynomial {
  import opened Crc32

  predicate IsGeneratorTerm(degree: int) {
    degree == 32 || degree == 26 || degree == 23 || degree == 22 || degree == 16 || degree == 12 || degree == 11 ||
    degree == 10 || degree == 8 || degree == 7 || degree == 5 || degree == 4 || 0 <= degree <= 2
  }

  function Generator(): (g: seq<bool>)
    ensures |g| == 33
  {
    seq(33, i => IsGeneratorTerm(32 - i))
  }

  function Add(a: seq<bool>, b: seq<bool>): (s: seq<bool>)
    requires |a| == |b|
    ensures |s| == |a| && forall i :: 0 <= i < |a| ==> s[i] == (a[i] != b[i])
  {
    seq(|a|, i requires 0 <= i < |a| => a[i] != b[i])
  }

  /** Adds a polynomial to the leading coefficients. */
  function AddFront(d: seq<bool>, p: seq<bool>): (s: seq<bool>)
    requires |p| <= |d|
    ensures |s| == |d| && forall i :: 0 <= i < |d| ==> s[i] == (d[i] != (i < |p| && p[i]))
  {
    Add(d[..|p|], p) + d[|p|..]
  }

  /** Long division by the generator: cancel the leading term until the degree is below 32. */
  function Remainder(d: seq<bool>): (r: seq<bool>)
    ensures |r| == if |d| <= 32 then |d| else 32
    decreases |d|
  {
    if |d| <= 32 then d
    else if d[0] then Remainder(AddFront(d, Generator())[1..])
    else Remainder(d[1..])
  }

  /** The lowest bits of a word, lowest first. */
  function Bits(x: bv32, n: nat): (bits: seq<bool>)
    ensures |bits| == n
    decreases n
  {
    if n == 0 then [] else [Low(x)] + Bits(Half(x), n - 1)
  }

  /** The bits of a message, each byte lowest bit first. */
  function Message(bytes: seq<bv8>): seq<bool> {
    if bytes == [] then [] else Bits(Wide(bytes[0]), 8) + Message(bytes[1..])
  }

  function Repeat(b: bool, n: nat): (bits: seq<bool>)
    ensures |bits| == n && forall i :: 0 <= i < n ==> bits[i] == b
  {
    seq(n, i => b)
  }

  function Bit(b: bool): bv32 {
    if b then 1 else 0
  }

  function TakeBits(c: bv32, bits: seq<bool>): bv32
    decreases |bits|
  {
    if bits == [] then c else TakeBits(Shift(Plus(c, Bit(bits[0]))), bits[1..])
  }

  // ----- Bits of words -----

  lemma {:induction false} BitsLinear(x: bv32, y: bv32, n: nat)
    ensures Bits(Plus(x, y), n) == Add(Bits(x, n), Bits(y, n))
    decreases n
  {
    hide Plus, Half, Low;
    if n > 0 {
      LowLinear(x, y);
      HalfLinear(x, y);
      BitsLinear(Half(x), Half(y), n - 1);
    }
  }

  lemma {:induction false} BitsSnoc(x: bv32, n: nat)
    ensures Bits(x, n + 1) == Bits(x, n) + [Low(Halves(x, n))]
    decreases n
  {
    hide Half, Low;
    if n == 0 {
      assert Bits(Half(x), 0) == [];
    } else {
      BitsSnoc(Half(x), n - 1);
    }
  }

  lemma {:induction false} HalvesAdd(x: bv32, m: nat, n: nat)
    ensures Halves(x, m + n) == Halves(Halves(x, m), n)
    decreases m
  {
    hide Half;
    if m > 0 { HalvesAdd(Half(x), m - 1, n); }
  }

  function Down(x: bv32): bv32 {
    x >> 8
  }

  lemma EightDown(x: bv32)
    ensures Halves(x, 8) == Down(x)
  {
    EightHalves(x);
  }

  lemma NoBitsLeft(x: bv32)
    ensures !Low(Down(Down(Down(Down(x)))))
  {
  }

  lemma HalvesGone(x: bv32)
    ensures !Low(Halves(x, 32))
  {
    hide Halves, Low, Down;
    HalvesAdd(x, 8, 24);
    HalvesAdd(Down(x), 8, 16);
    HalvesAdd(Down(Down(x)), 8, 8);
    EightDown(x);
    EightDown(Down(x));
    EightDown(Down(Down(x)));
    EightDown(Down(Down(Down(x))));
    NoBitsLeft(x);
  }

  lemma BitsOfHalf(c: bv32)
    ensures Bits(Half(c), 32) == Bits(c, 32)[1..] + [false]
  {
    hide Half, Low;
    BitsSnoc(Half(c), 31);
    assert Halves(Half(c), 31) == Halves(c, 32);
    HalvesGone(c);
  }

  lemma {:induction false} BitsAdd(x: bv32, m: nat, n: nat)
    ensures Bits(x, m + n) == Bits(x, m) + Bits(Halves(x, m), n)
    decreases m
  {
    hide Half, Low;
    if m > 0 { BitsAdd(Half(x), m - 1, n); }
  }

  lemma PolynomialBytes()
    ensures Bits(0xedb8_8320, 8) == [false, false, false, false, false, true, false, false]
    ensures Bits(0xed_b883, 8) == [true, true, false, false, false, false, false, true]
  {
  }

  lemma PolynomialHighBytes()
    ensures Bits(0xedb8, 8) == [false, false, false, true, true, true, false, true]
    ensures Bits(0xed, 8) == [true, false, true, true, false, true, true, true]
  {
  }

  lemma PolynomialDown()
    ensures Down(0xedb8_8320) == 0xed_b883 && Down(0xed_b883) == 0xedb8 && Down(0xedb8) == 0xed
  {
  }

  /** The constant in the code is the generator without its leading term, lowest degree highest. */
  lemma PolynomialIsGenerator()
    ensures [true] + Bits(POLYNOMIAL, 32) == Generator()
  {
    hide Down, Bits, Halves;
    var p: bv32 := 0xedb8_8320;
    PolynomialBytes();
    PolynomialHighBytes();
    PolynomialDown();
    EightDown(p);
    EightDown(0xed_b883);
    EightDown(0xedb8);
    BitsAdd(p, 8, 24);
    BitsAdd(0xed_b883, 8, 16);
    BitsAdd(0xedb8, 8, 8);
  }

  // ----- The register divides -----

  lemma BitsOfBit(b: bool)
    ensures Bits(Bit(b), 32) == [b] + Repeat(false, 31)
  {
    hide Half, Low;
    BitIsLow(b);
    BitsOfZero(31);
  }

  lemma BitIsLow(b: bool)
    ensures Low(Bit(b)) == b && Half(Bit(b)) == 0
  {
  }

  lemma {:induction false} BitsOfZero(n: nat)
    ensures Bits(0, n) == Repeat(false, n)
    decreases n
  {
    hide Half, Low;
    BitIsLow(false);
    if n > 0 { BitsOfZero(n - 1); }
  }

  /** A register and a dividend it stands for: the leading coefficients are the register's bits added in. */
  function Dividend(c: bv32, bits: seq<bool>): seq<bool> {
    AddFront(bits + Repeat(false, 32), Bits(c, 32))
  }

  lemma DropZero(d: seq<bool>, e: seq<bool>)
    requires |e| == 32 && |d| >= 32
    ensures AddFront([false] + d, e)[1..] == AddFront(d, e[1..] + [false])
  {
  }

  lemma CancelLeading(d: seq<bool>, e: seq<bool>, p: seq<bool>)
    requires |e| == |p| == 32 && |d| >= 32
    ensures AddFront(AddFront([false] + d, e), [true] + p)[1..] == AddFront(d, Add(e[1..] + [false], p))
  {
  }

  /** The next message bit may be added to the register instead. */
  lemma MoveBit(c: bv32, bits: seq<bool>)
    requires bits != []
    ensures Dividend(c, bits)
         == AddFront([false] + (bits[1..] + Repeat(false, 32)), Bits(Plus(c, Bit(bits[0])), 32))
  {
    hide Plus, Bits, Bit;
    BitsOfBit(bits[0]);
    BitsLinear(c, Bit(bits[0]), 32);
  }

  /** One shift of the register is one step of the long division. */
  lemma ShiftDivides(c: bv32, bits: seq<bool>)
    requires bits != []
    ensures Remainder(Dividend(c, bits)) == Remainder(Dividend(Shift(Plus(c, Bit(bits[0]))), bits[1..]))
  {
    hide Half, Low, Plus, Bits, Bit, Remainder, AddFront, Add, Generator, POLYNOMIAL;
    var e := Plus(c, Bit(bits[0]));
    var d := bits[1..] + Repeat(false, 32);
    MoveBit(c, bits);
    LowIsFirst(e);
    BitsOfHalf(e);
    RemainderStep(Dividend(c, bits));
    if Low(e) {
      PolynomialIsGenerator();
      BitsLinear(Half(e), POLYNOMIAL, 32);
      CancelLeading(d, Bits(e, 32), Bits(POLYNOMIAL, 32));
    } else {
      DropZero(d, Bits(e, 32));
    }
  }

  lemma LowIsFirst(c: bv32)
    ensures Bits(c, 32)[0] == Low(c)
  {
  }

  lemma RemainderStep(d: seq<bool>)
    requires |d| > 32
    ensures Remainder(d) == Remainder(if d[0] then AddFront(d, Generator())[1..] else d[1..])
  {
  }

  lemma {:induction false} RegisterDivides(c: bv32, bits: seq<bool>)
    ensures Bits(TakeBits(c, bits), 32) == Remainder(Dividend(c, bits))
    decreases |bits|
  {
    hide Shift, Plus, Bits, Bit;
    if bits == [] {
      assert Dividend(c, bits) == Bits(c, 32);
    } else {
      hide Remainder;
      ShiftDivides(c, bits);
      RegisterDivides(Shift(Plus(c, Bit(bits[0]))), bits[1..]);
    }
  }

  // ----- Bytes are eight bits -----

  function Double(x: bv32): bv32 {
    x << 1
  }

  lemma JoinHalf(x: bv32)
    ensures Plus(Bit(Low(x)), Double(Half(x))) == x
  {
  }

  lemma DoubleHalf(x: bv32)
    ensures !Low(Double(x)) && Half(Double(Half(x))) == Half(x)
  {
  }

  /** The bits of a byte may enter together or one before each shift. */
  lemma {:induction false} BitsEnterInTurn(c: bv32, x: bv32, n: nat)
    requires Halves(x, n) == 0
    ensures Shifts(Plus(c, x), n) == TakeBits(c, Bits(x, n))
    decreases n
  {
    hide Shift, Plus, Bit, Half, Low;
    if n == 0 {
      PlusSelf(c);
    } else {
      ShiftSplit(c, x);
      BitsEnterInTurn(Shift(Plus(c, Bit(Low(x)))), Half(x), n - 1);
      assert Bits(x, n)[0] == Low(x) && Bits(x, n)[1..] == Bits(Half(x), n - 1);
    }
  }

  lemma ShiftSplit(c: bv32, x: bv32)
    ensures Shift(Plus(c, x)) == Plus(Shift(Plus(c, Bit(Low(x)))), Half(x))
  {
    hide Half, Low, Plus, Bit, Shift, Double;
    var low, rest := Bit(Low(x)), Double(Half(x));
    JoinHalf(x);
    DoubleHalf(x);
    DoubleHalf(Half(x));
    PlusLaws(c, low, rest);
    ShiftLinear(Plus(c, low), rest);
    ShiftEven(rest);
  }

  lemma WideIsByte(b: bv8)
    ensures Halves(Wide(b), 8) == 0
  {
    EightDown(Wide(b));
  }

  lemma {:induction false} TakeBitsConcat(c: bv32, a: seq<bool>, b: seq<bool>)
    ensures TakeBits(c, a + b) == TakeBits(TakeBits(c, a), b)
    decreases |a|
  {
    hide Shift, Plus, Bit;
    if a == [] {
      assert a + b == b;
    } else {
      assert (a + b)[1..] == a[1..] + b;
      TakeBitsConcat(Shift(Plus(c, Bit(a[0]))), a[1..], b);
    }
  }

  lemma {:induction false} RegisterTakesBits(c: bv32, bytes: seq<bv8>)
    ensures Register(c, bytes) == TakeBits(c, Message(bytes))
    decreases |bytes|
  {
    hide Shifts, Plus, Wide, Bits, TakeBits;
    if bytes == [] {
      NoBitsTaken(c);
    } else {
      WideIsByte(bytes[0]);
      BitsEnterInTurn(c, Wide(bytes[0]), 8);
      TakeBitsConcat(c, Bits(Wide(bytes[0]), 8), Message(bytes[1..]));
      RegisterTakesBits(Update(c, bytes[0]), bytes[1..]);
    }
  }

  lemma NoBitsTaken(c: bv32)
    ensures TakeBits(c, []) == c
  {
  }

  function Complement(bits: seq<bool>): seq<bool> {
    Add(bits, Repeat(true, |bits|))
  }

  lemma OnesBits()
    ensures Bits(ONES, 32) == Repeat(true, 32)
  {
    hide Bits, Halves;
    var m: bv32 := 0xffff_ffff;
    OnesDown();
    EightDown(m);
    EightDown(0xff_ffff);
    EightDown(0xffff);
    BitsAdd(m, 8, 24);
    BitsAdd(0xff_ffff, 8, 16);
    BitsAdd(0xffff, 8, 8);
  }

  lemma OnesDown()
    ensures Down(0xffff_ffff) == 0xff_ffff && Down(0xff_ffff) == 0xffff && Down(0xffff) == 0xff
    ensures Bits(0xff, 8) == Bits(0xffff, 8) == Bits(0xff_ffff, 8) == Bits(0xffff_ffff, 8) == Repeat(true, 8)
  {
  }

  /**
   The checksum is the complement of the remainder of the message times x^32, with the 32 leading
   coefficients of that product complemented, divided by the generator.
   */
  lemma ChecksumIsRemainder(bytes: seq<bv8>)
    ensures Bits(Checksum(bytes), 32)
         == Complement(Remainder(AddFront(Message(bytes) + Repeat(false, 32), Repeat(true, 32))))
  {
    hide Bits, Plus, Register, Remainder, Message;
    RegisterTakesBits(ONES, bytes);
    RegisterDivides(ONES, Message(bytes));
    OnesBits();
    BitsLinear(Register(ONES, bytes), ONES, 32);
  }

  // ----- Changes within 32 consecutive bits of the message -----

  /** The word whose lowest bits are given. */
  function WordOf(w: seq<bool>): bv32 {
    if w == [] then 0 else Plus(Bit(w[0]), Double(WordOf(w[1..])))
  }

  lemma SevenHalves(x: bv32)
    ensures Halves(x, 7) == x >> 7
  {
  }

  lemma TopBitClear(x: bv32)
    requires Down(Down(Down(x))) >> 7 == 0
    ensures Half(Double(x)) == x
  {
  }

  lemma {:induction false} HalvesOfZero(n: nat)
    ensures Halves(0, n) == 0
    decreases n
  {
    hide Half;
    BitIsLow(false);
    if n > 0 { HalvesOfZero(n - 1); }
  }

  /** A word of at most 31 bits can be doubled and halved again. */
  lemma DoubledFits(x: bv32, n: nat)
    requires n <= 31 && Halves(x, n) == 0
    ensures Half(Double(x)) == x
  {
    hide Halves, Down, Half, Double;
    HalvesAdd(x, n, 31 - n);
    HalvesOfZero(31 - n);
    HalvesAdd(x, 8, 23);
    HalvesAdd(Down(x), 8, 15);
    HalvesAdd(Down(Down(x)), 8, 7);
    EightDown(x);
    EightDown(Down(x));
    EightDown(Down(Down(x)));
    SevenHalves(Down(Down(Down(x))));
    TopBitClear(x);
  }

  lemma {:induction false} WordOfIs(w: seq<bool>)
    requires |w| <= 32
    ensures Bits(WordOf(w), |w|) == w && Halves(WordOf(w), |w|) == 0
  {
    hide Half, Low, Plus, Double, Bit;
    if w != [] {
      var x := WordOf(w[1..]);
      WordOfIs(w[1..]);
      DoubledFits(x, |w| - 1);
      DoubleHalf(x);
      BitIsLow(w[0]);
      LowLinear(Bit(w[0]), Double(x));
      HalfLinear(Bit(w[0]), Double(x));
      PlusSelf(x);
    }
  }

  /** Different bits in the same place lead to different registers. */
  lemma BitsKeptApart(c: bv32, w: seq<bool>, w': seq<bool>)
    requires |w| == |w'| <= 32 && TakeBits(c, w) == TakeBits(c, w')
    ensures w == w'
  {
    hide Half, Low, Plus, Double, Bit, Bits, Halves, Shifts, TakeBits;
    WordOfIs(w);
    WordOfIs(w');
    BitsEnterInTurn(c, WordOf(w), |w|);
    BitsEnterInTurn(c, WordOf(w'), |w|);
    ShiftsInjective(Plus(c, WordOf(w)), Plus(c, WordOf(w')), |w|);
    PlusCancels(WordOf(w), WordOf(w'), c);
  }

  lemma {:induction false} TakeBitsInjective(c: bv32, d: bv32, bits: seq<bool>)
    requires TakeBits(c, bits) == TakeBits(d, bits)
    ensures c == d
    decreases |bits|
  {
    hide Shift, Plus, Bit;
    if bits != [] {
      var b := Bit(bits[0]);
      TakeBitsInjective(Shift(Plus(c, b)), Shift(Plus(d, b)), bits[1..]);
      ShiftInjective(Plus(c, b), Plus(d, b));
      PlusCancels(c, d, b);
    }
  }

  lemma {:induction false} BitsDetermine(x: bv32, y: bv32, n: nat)
    requires Halves(x, n) == 0 && Halves(y, n) == 0 && Bits(x, n) == Bits(y, n)
    ensures x == y
    decreases n
  {
    hide Half, Low, Plus, Double, Bit;
    if n > 0 {
      assert Bits(x, n)[0] == Low(x) && Bits(y, n)[0] == Low(y);
      assert Bits(x, n)[1..] == Bits(Half(x), n - 1) && Bits(y, n)[1..] == Bits(Half(y), n - 1);
      BitsDetermine(Half(x), Half(y), n - 1);
      JoinHalf(x);
      JoinHalf(y);
    }
  }

  lemma WideInjective(a: bv8, b: bv8)
    requires Wide(a) == Wide(b)
    ensures a == b
  {
  }

  /** A message has eight bits a byte, and they determine it. */
  lemma {:induction false} MessageInjective(a: seq<bv8>, b: seq<bv8>)
    requires Message(a) == Message(b)
    ensures a == b
  {
    hide Bits, Wide;
    if a != [] && b != [] {
      assert Message(a)[..8] == Bits(Wide(a[0]), 8) && Message(b)[..8] == Bits(Wide(b[0]), 8);
      assert Message(a)[8..] == Message(a[1..]) && Message(b)[8..] == Message(b[1..]);
      WideIsByte(a[0]);
      WideIsByte(b[0]);
      BitsDetermine(Wide(a[0]), Wide(b[0]), 8);
      WideInjective(a[0], b[0]);
      MessageInjective(a[1..], b[1..]);
    }
  }

  /**
   Strings that differ only within 32 consecutive bits of the message, wherever they start and whatever
   the length of the strings, share a checksum only if they are equal.
   */
  lemma BitBurstChangesChecksum(a: seq<bv8>, b: seq<bv8>, before: seq<bool>, w: seq<bool>, w': seq<bool>,
                                after: seq<bool>)
    requires |w| == |w'| <= 32
    requires Message(a) == before + w + after && Message(b) == before + w' + after
    ensures Checksum(a) == Checksum(b) <==> a == b
  {
    hide Plus, Register, Message, TakeBits;
    RegisterTakesBits(ONES, a);
    RegisterTakesBits(ONES, b);
    var c := TakeBits(ONES, before);
    TakeBitsConcat(ONES, before + w, after);
    TakeBitsConcat(ONES, before + w', after);
    TakeBitsConcat(ONES, before, w);
    TakeBitsConcat(ONES, before, w');
    if Checksum(a) == Checksum(b) {
      PlusCancels(Register(ONES, a), Register(ONES, b), ONES);
      TakeBitsInjective(TakeBits(c, w), TakeBits(c, w'), after);
      BitsKeptApart(c, w, w');
      MessageInjective(a, b);
    }
  }
}
