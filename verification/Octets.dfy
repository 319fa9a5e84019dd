/** Bytes as eight bits and as numbers below 256. */
module Octets {

  predicate On(b: bv8, mask: bv8) {
    b & mask != 0
  }

  function Part(on: bool, mask: bv8): bv8 {
    if on then mask else 0
  }

  /** A number with one more binary digit. */
  function More(n: nat, on: bool): nat {
    2 * n + if on then 1 else 0
  }

  predicate Odd(n: nat) {
    n % 2 == 1
  }

  function Pack(h: bool, g: bool, f: bool, e: bool, d: bool, c: bool, b: bool, a: bool): bv8 {
    Part(h, 128) | Part(g, 64) | Part(f, 32) | Part(e, 16) | Part(d, 8) | Part(c, 4) | Part(b, 2) | Part(a, 1)
  }

  /** The number a byte stands for, from its highest bit down. */
  function Value(b: bv8): nat {
    var high := More(More(More(More(0, On(b, 128)), On(b, 64)), On(b, 32)), On(b, 16));
    More(More(More(More(high, On(b, 8)), On(b, 4)), On(b, 2)), On(b, 1))
  }

  /** The byte that stands for a number, from its lowest digit up. */
  function Octet(n: nat): bv8
    requires n < 0x100
  {
    var b := n / 2;
    var c := b / 2;
    var d := c / 2;
    var e := d / 2;
    var f := e / 2;
    var g := f / 2;
    var h := g / 2;
    Pack(Odd(h), Odd(g), Odd(f), Odd(e), Odd(d), Odd(c), Odd(b), Odd(n))
  }

  lemma ValueIsNumber(b: bv8)
    ensures Value(b) == b as int
  {
  }

  lemma OnPack(h: bool, g: bool, f: bool, e: bool, d: bool, c: bool, b: bool, a: bool)
    ensures var p := Pack(h, g, f, e, d, c, b, a);
            && On(p, 128) == h && On(p, 64) == g && On(p, 32) == f && On(p, 16) == e
            && On(p, 8) == d && On(p, 4) == c && On(p, 2) == b && On(p, 1) == a
  {
  }

  lemma PackOn(b: bv8)
    ensures Pack(On(b, 128), On(b, 64), On(b, 32), On(b, 16), On(b, 8), On(b, 4), On(b, 2), On(b, 1)) == b
  {
  }

  lemma HalfAndOdd(n: nat, on: bool)
    ensures More(n, on) / 2 == n && Odd(More(n, on)) == on
    ensures More(n / 2, Odd(n)) == n
    ensures More(n, on) < 2 * n + 2
  {
  }

  lemma ValueOfOctet(n: nat)
    requires n < 0x100
    ensures Value(Octet(n)) == n
  {
    hide On, Pack, More, Odd;
    var b := n / 2;
    var c := b / 2;
    var d := c / 2;
    var e := d / 2;
    var f := e / 2;
    var g := f / 2;
    var h := g / 2;
    assert h / 2 == 0;
    OnPack(Odd(h), Odd(g), Odd(f), Odd(e), Odd(d), Odd(c), Odd(b), Odd(n));
    HalfAndOdd(h, true);
    HalfAndOdd(g, true);
    HalfAndOdd(f, true);
    HalfAndOdd(e, true);
    HalfAndOdd(d, true);
    HalfAndOdd(c, true);
    HalfAndOdd(b, true);
    HalfAndOdd(n, true);
  }

  lemma OctetOfValue(v: bv8)
    ensures Value(v) < 0x100 && Octet(Value(v)) == v
  {
    hide On, Pack, More, Odd;
    var h := More(0, On(v, 128));
    var g := More(h, On(v, 64));
    var f := More(g, On(v, 32));
    var e := More(f, On(v, 16));
    var d := More(e, On(v, 8));
    var c := More(d, On(v, 4));
    var b := More(c, On(v, 2));
    HalfAndOdd(0, On(v, 128));
    HalfAndOdd(h, On(v, 64));
    HalfAndOdd(g, On(v, 32));
    HalfAndOdd(f, On(v, 16));
    HalfAndOdd(e, On(v, 8));
    HalfAndOdd(d, On(v, 4));
    HalfAndOdd(c, On(v, 2));
    HalfAndOdd(b, On(v, 1));
    PackOn(v);
  }
}
