/** The double-length multiplication of the simulated processor
    (machine/mipssim.cc): shift and add, one bit at a time, on 32-bit words that
    wrap around. */
module Multiply {
  import opened Bytes

  datatype Pair = Pair(hi: Word, lo: Word)

  /** Two words as one number of 64 bits. */
  function Double(hi: Word, lo: Word): nat {
    hi * 0x1_0000_0000 + lo
  }

  function Value(d: Pair): nat {
    Double(d.hi, d.lo)
  }

  /** Addition that wraps around. */
  function Add32(x: Word, y: Word): Word {
    var z := x + y;
    if z < 0x1_0000_0000 then z else z - 0x1_0000_0000
  }

  function Neg32(a: Int32): Int32 {
    if a == -0x8000_0000 then a else -a
  }

  /** Addition of words, with the carry found by comparing. */
  function AddPair(d: Pair, b: Pair): (r: Pair)
    ensures Value(d) + Value(b) < 0x1_0000_0000_0000_0000 ==> Value(r) == Value(d) + Value(b)
  {
    var lo := Add32(d.lo, b.lo);
    var hi := if lo < b.lo then Add32(d.hi, 1) else d.hi;
    Pair(Add32(hi, b.hi), lo)
  }

  /** A left shift by one bit, with the top bit of the low word moved over. */
  function ShiftPair(b: Pair): (r: Pair)
    ensures Value(b) < 0x8000_0000_0000_0000 ==> Value(r) == 2 * Value(b)
  {
    var hi := Add32(b.hi, b.hi);
    Pair(if b.lo >= 0x8000_0000 then Add32(hi, 1) else hi, Add32(b.lo, b.lo))
  }

  /** The two's complement. */
  function NegatePair(d: Pair): (r: Pair)
    ensures Value(r) == if Value(d) == 0 then 0 else 0x1_0000_0000_0000_0000 - Value(d)
  {
    var lo := Add32(0xffff_ffff - d.lo, 1);
    var hi := 0xffff_ffff - d.hi;
    Pair(if lo == 0 then Add32(hi, 1) else hi, lo)
  }

  /** No bit of a but the lowest is set. */
  predicate OnlyLowest(a: Int32): (r: bool)
    ensures r <==> a == 0 || a == 1
  {
    IntWord(a) - IntWord(a) % 2 == 0
  }

  /** The last n turns of the loop, with a shifted arithmetically. */
  function Turns(a: Int32, sum: Pair, b: Pair, n: nat): Pair
    decreases n
  {
    if n == 0 then sum
    else if a % 2 == 1 && OnlyLowest(a) then AddPair(sum, b)
    else Turns(a / 2, if a % 2 == 1 then AddPair(sum, b) else sum, ShiftPair(b), n - 1)
  }

  /** The n bits of the multiplier that are still to come, as a number. */
  function Rest(a: Int32, n: nat): int {
    if a < 0 then a + Pow2(n) else a
  }

  lemma RestHalves(a: Int32, n: nat)
    requires n > 0
    ensures Rest(a, n) == a % 2 + 2 * Rest(a / 2, n - 1)
  {
  }

  /** What one turn adds for the lowest bit, and what is left to the others. */
  lemma TurnKeepsTotal(bit: nat, half: nat, v: nat)
    requires bit < 2
    ensures (bit + 2 * half) * v == (if bit == 1 then v else 0) + half * (2 * v)
    ensures half * (2 * v) >= 0
  {
    assert (2 * half) * v == half * (2 * v);
  }

  lemma ShiftHasRoom(v: nat, p: nat)
    requires p > 0 && v * (2 * p) < 0x1_0000_0000_0000_0000
    ensures v < 0x8000_0000_0000_0000 && (2 * v) * p < 0x1_0000_0000_0000_0000
  {
    assert v * (2 * p) == (2 * v) * p;
    assert (2 * v) * p >= 2 * v;
  }

  lemma {:induction false} TurnsMultiply(a: Int32, sum: Pair, b: Pair, n: nat)
    requires 0 <= Rest(a, n) < Pow2(n)
    requires Value(b) * Pow2(n) < 0x1_0000_0000_0000_0000
    requires Value(sum) + Rest(a, n) * Value(b) < 0x1_0000_0000_0000_0000
    ensures Value(Turns(a, sum, b, n)) == Value(sum) + Rest(a, n) * Value(b)
    decreases n
  {
    if n == 0 {
    } else {
      var v, half := Value(b), Rest(a / 2, n - 1);
      RestHalves(a, n);
      TurnKeepsTotal(a % 2, half, v);
      ShiftHasRoom(v, Pow2(n - 1));
      var sum' := if a % 2 == 1 then AddPair(sum, b) else sum;
      assert Value(sum') == Value(sum) + if a % 2 == 1 then v else 0;
      if a % 2 == 1 && OnlyLowest(a) {
        assert half == 0;
      } else {
        TurnsMultiply(a / 2, sum', ShiftPair(b), n - 1);
      }
    }
  }

  lemma TimesMonotone(x: nat, y: nat, m: nat)
    requires y <= m
    ensures x * y <= x * m
  {
  }

  lemma ProductFits(x: Word, y: Word)
    ensures x * y < 0x1_0000_0000_0000_0000
  {
    TimesMonotone(x, y, 0xffff_ffff);
  }

  lemma AllTurnsMultiply(a: Int32, b: Word, n: nat)
    requires n == 32
    ensures Value(Turns(a, Pair(0, 0), Pair(0, b), n)) == IntWord(a) * b
  {
    Pow2Of32();
    ProductFits(IntWord(a), b);
    TurnsMultiply(a, Pair(0, 0), Pair(0, b), n);
  }

  method RunTurns(multiplier: Int32, b: Word, n: nat) returns (d: Pair)
    ensures d == Turns(multiplier, Pair(0, 0), Pair(0, b), n)
  {
    var a, shifted := multiplier, Pair(0, b);
    d := Pair(0, 0);
    for i := 0 to n
      invariant Turns(a, d, shifted, n - i) == Turns(multiplier, Pair(0, 0), Pair(0, b), n)
    {
      if a % 2 == 1 {
        d := AddPair(d, shifted);
        if OnlyLowest(a) { return; }
      }
      shifted := ShiftPair(shifted);
      a := a / 2;
    }
  }

  /** The main loop: the exact product of the multiplier, taken as an unsigned
      number although it is shifted arithmetically, and of the multiplicand. */
  method Product(multiplier: Int32, b: Word) returns (d: Pair)
    ensures Value(d) == IntWord(multiplier) * b
  {
    d := RunTurns(multiplier, b, 32);
    AllTurnsMultiply(multiplier, b, 32);
  }

  function Magnitude(a: int): nat {
    if a < 0 then -a else a
  }

  lemma MagnitudeProduct(a: int, b: int)
    ensures Magnitude(a) * Magnitude(b) == if (a < 0) != (b < 0) then -(a * b) else a * b
  {
  }

  lemma MagnitudeFits(x: nat, y: nat)
    requires 0 < x <= 0x8000_0000 && 0 < y <= 0x8000_0000
    ensures 0 < x * y <= 0x4000_0000_0000_0000
  {
    assert x * y <= 0x8000_0000 * y;
  }

  /** The high word read as a signed number gives the sign of the product. */
  lemma SignedDouble(h: Word, l: Word, m: int, negative: bool)
    requires 0 < m <= 0x4000_0000_0000_0000
    requires Double(h, l) == if negative then 0x1_0000_0000_0000_0000 - m else m
    ensures WordInt(h) * 0x1_0000_0000 + l == if negative then -m else m
  {
  }

  lemma MagnitudeWord(a: Int32)
    ensures IntWord(if a < 0 then Neg32(a) else a) == Magnitude(a)
  {
  }

  /** For all operands, the most negative ones included, the high and low words
      are the exact product of 64 bits. */
  method Mult(a: Int32, b: Int32, signedArith: bool) returns (hi: Int32, lo: Int32)
    ensures signedArith ==> hi * 0x1_0000_0000 + IntWord(lo) == a * b
    ensures !signedArith ==> Double(IntWord(hi), IntWord(lo)) == IntWord(a) * IntWord(b)
  {
    if a == 0 || b == 0 {
      hi, lo := 0, 0;
      return;
    }
    var negative, x, y := false, a, b;
    if signedArith {
      if x < 0 { negative, x := !negative, Neg32(x); }
      if y < 0 { negative, y := !negative, Neg32(y); }
    }
    var d := Product(x, IntWord(y));
    if signedArith {
      MagnitudeWord(a);
      MagnitudeWord(b);
      MagnitudeProduct(a, b);
      MagnitudeFits(Magnitude(a), Magnitude(b));
    }
    if negative { d := NegatePair(d); }
    if signedArith { SignedDouble(d.hi, d.lo, Magnitude(a) * Magnitude(b), negative); }
    hi, lo := WordInt(d.hi), WordInt(d.lo);
  }
}
