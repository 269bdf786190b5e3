/** How the unaligned loads and stores of the simulated processor put a register
    and a memory word together (machine/mipssim.cc), byte by byte. */
module WordMerge {
  import opened Bytes

  // ---------- Masks and shifts ----------

  lemma HalfMod(x: nat, p: nat)
    requires p > 0
    ensures x % (2 * p) == x % 2 + 2 * (x / 2 % p)
  {
    var q, r := x / 2 / p, x / 2 % p;
    assert x / 2 == p * q + r;
    assert x == (2 * p) * q + (x % 2 + 2 * r) by { assert (2 * p) * q == 2 * (p * q); }
    Remainder(x, 2 * p, q, x % 2 + 2 * r);
  }

  lemma Remainder(x: nat, d: nat, q: nat, r: nat)
    requires d > 0 && x == d * q + r && r < d
    ensures x % d == r && x / d == q
  {
    var q', r' := x / d, x % d;
    assert x == d * q' + r';
    assert q' < q ==> d * q >= d * (q' + 1);
    assert q' > q ==> d * q' >= d * (q + 1);
  }

  /** A mask of k ones keeps the k lowest bits. */
  lemma {:induction false} LowMask(x: nat, k: nat)
    ensures And(x, Pow2(k) - 1) == x % Pow2(k)
  {
    if k > 0 {
      LowMask(x / 2, k - 1);
      HalfMod(x, Pow2(k - 1));
      assert (Pow2(k) - 1) % 2 == 1 && (Pow2(k) - 1) / 2 == Pow2(k - 1) - 1;
    }
  }

  /** A mask and its complement share out the bits of x. */
  lemma {:induction false} MasksShare(x: nat, m: nat, n: nat)
    requires x < Pow2(n) && m < Pow2(n)
    ensures And(x, m) + And(x, Pow2(n) - 1 - m) == x
  {
    if n > 0 {
      var c := Pow2(n) - 1 - m;
      assert c % 2 == 1 - m % 2 && c / 2 == Pow2(n - 1) - 1 - m / 2;
      MasksShare(x / 2, m / 2, n - 1);
    }
  }

  /** Nothing carries between numbers that have no bit in common. */
  lemma {:induction false} OrApart(lo: nat, hi: nat, k: nat)
    requires lo < Pow2(k)
    ensures Or(lo, hi * Pow2(k)) == lo + hi * Pow2(k)
  {
    if k == 0 {
      OrZero(hi);
    } else {
      var p := Pow2(k - 1);
      assert hi * Pow2(k) == 2 * (hi * p);
      OrApart(lo / 2, hi, k - 1);
    }
  }

  lemma {:induction false} OrZero(x: nat)
    ensures Or(0, x) == x
  {
    if x > 0 { OrZero(x / 2); }
  }

  lemma {:induction false} OrCommutes(a: nat, b: nat)
    ensures Or(a, b) == Or(b, a)
  {
    if a != 0 || b != 0 { OrCommutes(a / 2, b / 2); }
  }

  /** Multiples of eight bits. */
  function Bits(bytes: nat): (p: nat)
    requires bytes <= 4
    ensures p == Pow2(8 * bytes)
  {
    PowersOfBytes();
    [1, 0x100, 0x1_0000, 0x100_0000, 0x1_0000_0000][bytes]
  }

  lemma PowersOfBytes()
    ensures Pow2(0) == 1 && Pow2(8) == 0x100 && Pow2(16) == 0x1_0000 && Pow2(24) == 0x100_0000
    ensures Pow2(32) == 0x1_0000_0000
  {
    Pow2Of32();
    assert Pow2(8) == 0x100;
    assert Pow2(16) == 0x1_0000;
    assert Pow2(24) == 0x100_0000;
  }

  /** `w << 8 * j` in 32 bits. */
  function ShiftLeft(w: Word, j: nat): Word
    requires 0 < j < 4
  {
    w * Bits(j) % 0x1_0000_0000
  }

  /** `w >> 8 * j` on a signed integer. */
  function ShiftRight(w: Word, j: nat): Word
    requires 0 < j < 4
  {
    IntWord(WordInt(w) / Bits(j))
  }

  lemma ShiftLeftValue(w: Word, j: nat)
    requires 0 < j < 4
    ensures ShiftLeft(w, j) == w % Bits(4 - j) * Bits(j)
  {
    if j == 1 {
      Remainder(w * 0x100, 0x1_0000_0000, w / 0x100_0000, w % 0x100_0000 * 0x100);
    } else if j == 2 {
      Remainder(w * 0x1_0000, 0x1_0000_0000, w / 0x1_0000, w % 0x1_0000 * 0x1_0000);
    } else {
      Remainder(w * 0x100_0000, 0x1_0000_0000, w / 0x100, w % 0x100 * 0x100_0000);
    }
  }

  lemma ShiftRightValue(w: Word, j: nat)
    requires 0 < j < 4
    ensures ShiftRight(w, j) % Bits(4 - j) == w / Bits(j)
  {
  }

  lemma OnesBelow(x: Word, j: nat)
    requires 0 < j < 4
    ensures And(x, Bits(j) - 1) == x % Bits(j)
    ensures And(x, 0x1_0000_0000 - Bits(j)) == x - x % Bits(j)
  {
    LowMask(x, 8 * j);
    PowersOfBytes();
    MasksShare(x, Bits(j) - 1, 32);
  }

  /** Two parts that share no byte, put together. */
  lemma PartsJoin(h: nat, l: nat, j: nat)
    requires 0 < j < 4 && l < Bits(j) && h < Bits(4 - j)
    ensures Or(l, h * Bits(j)) == Or(h * Bits(j), l) == h * Bits(j) + l < 0x1_0000_0000
  {
    OrApart(l, h, 8 * j);
    OrCommutes(h * Bits(j), l);
  }

  lemma AboveParts(x: Word, y: Word, j: nat)
    requires 0 < j < 4
    ensures Or(And(x, Bits(j) - 1), ShiftLeft(y, j)) == y % Bits(4 - j) * Bits(j) + x % Bits(j) < 0x1_0000_0000
  {
    OnesBelow(x, j);
    ShiftLeftValue(y, j);
    PartsJoin(y % Bits(4 - j), x % Bits(j), j);
  }

  /** The low j bytes of x, with y moved up above them. */
  function Above(x: Word, y: Word, j: nat): Word
    requires 0 < j < 4
  {
    AboveParts(x, y, j);
    Or(And(x, Bits(j) - 1), ShiftLeft(y, j))
  }

  lemma BelowParts(x: Word, y: Word, j: nat)
    requires 0 < j < 4
    ensures Or(And(x, 0x1_0000_0000 - Bits(j)), And(ShiftRight(y, 4 - j), Bits(j) - 1))
         == x / Bits(j) * Bits(j) + y / Bits(4 - j) < 0x1_0000_0000
  {
    BelowMasks(x, y, j);
    PartsJoin(x / Bits(j), y / Bits(4 - j), j);
  }

  lemma BelowMasks(x: Word, y: Word, j: nat)
    requires 0 < j < 4
    ensures And(x, 0x1_0000_0000 - Bits(j)) == x / Bits(j) * Bits(j)
    ensures And(ShiftRight(y, 4 - j), Bits(j) - 1) == y / Bits(4 - j)
    ensures y / Bits(4 - j) < Bits(j) && x / Bits(j) < Bits(4 - j)
  {
    OnesBelow(x, j);
    OnesBelow(ShiftRight(y, 4 - j), j);
    ShiftRightValue(y, 4 - j);
  }

  /** The high bytes of x, with the top j bytes of y moved down below them. */
  function Below(x: Word, y: Word, j: nat): Word
    requires 0 < j < 4
  {
    BelowParts(x, y, j);
    Or(And(x, 0x1_0000_0000 - Bits(j)), And(ShiftRight(y, 4 - j), Bits(j) - 1))
  }

  function Join(b0: Byte, b1: Byte, b2: Byte, b3: Byte): Word {
    var c0: int, c1: int, c2: int, c3: int := b0, b1, b2, b3;
    c0 + 0x100 * c1 + 0x1_0000 * c2 + 0x100_0000 * c3
  }

  lemma JoinBytes(b0: Byte, b1: Byte, b2: Byte, b3: Byte)
    ensures var w := Join(b0, b1, b2, b3);
            WordByte(w, 0) == b0 && WordByte(w, 1) == b1 && WordByte(w, 2) == b2 && WordByte(w, 3) == b3
  {
    var c0: int, c1: int, c2: int, c3: int := b0, b1, b2, b3;
    var w := Join(b0, b1, b2, b3);
    Remainder(w, 0x100, c1 + 0x100 * c2 + 0x1_0000 * c3, c0);
    Remainder(w / 0x100, 0x100, c2 + 0x100 * c3, c1);
    Remainder(w / 0x100 / 0x100, 0x100, c3, c2);
  }

  lemma SplitWord(w: Word)
    ensures w == Join(WordByte(w, 0), WordByte(w, 1), WordByte(w, 2), WordByte(w, 3))
  {
    var q1, q2, q3 := w / 256, w / 256 / 256, w / 256 / 256 / 256;
    assert w == 256 * q1 + w % 256 && q1 == 256 * q2 + q1 % 256 && q2 == 256 * q3 + q2 % 256;
  }

  lemma Halves(w: Word, j: nat)
    requires 0 < j < 4
    ensures var b0: int, b1: int, b2: int, b3: int := WordByte(w, 0), WordByte(w, 1), WordByte(w, 2), WordByte(w, 3);
            && w % Bits(j) == (if j == 1 then b0 else if j == 2 then b0 + 0x100 * b1
                               else b0 + 0x100 * b1 + 0x1_0000 * b2)
            && w / Bits(j) == (if j == 1 then b1 + 0x100 * b2 + 0x1_0000 * b3
                               else if j == 2 then b2 + 0x100 * b3 else b3)
  {
    SplitWord(w);
    var b0: int, b1: int, b2: int, b3: int := WordByte(w, 0), WordByte(w, 1), WordByte(w, 2), WordByte(w, 3);
    if j == 1 {
      Remainder(w, 0x100, b1 + 0x100 * b2 + 0x1_0000 * b3, b0);
    } else if j == 2 {
      Remainder(w, 0x1_0000, b2 + 0x100 * b3, b0 + 0x100 * b1);
    } else {
      Remainder(w, 0x100_0000, b3, b0 + 0x100 * b1 + 0x1_0000 * b2);
    }
  }

  lemma AboveSum(x: Word, y: Word, j: nat)
    requires 0 < j < 4
    ensures y % Bits(4 - j) * Bits(j) + x % Bits(j) ==
      if j == 1 then Join(WordByte(x, 0), WordByte(y, 0), WordByte(y, 1), WordByte(y, 2))
      else if j == 2 then Join(WordByte(x, 0), WordByte(x, 1), WordByte(y, 0), WordByte(y, 1))
      else Join(WordByte(x, 0), WordByte(x, 1), WordByte(x, 2), WordByte(y, 0))
  {
    Halves(x, j);
    Halves(y, 4 - j);
    if j == 1 {
      assert Bits(j) == 0x100;
    } else if j == 2 {
      assert Bits(j) == 0x1_0000;
    } else {
      assert Bits(j) == 0x100_0000;
    }
  }

  lemma AboveJoin(x: Word, y: Word, j: nat)
    requires 0 < j < 4
    ensures Above(x, y, j) ==
      if j == 1 then Join(WordByte(x, 0), WordByte(y, 0), WordByte(y, 1), WordByte(y, 2))
      else if j == 2 then Join(WordByte(x, 0), WordByte(x, 1), WordByte(y, 0), WordByte(y, 1))
      else Join(WordByte(x, 0), WordByte(x, 1), WordByte(x, 2), WordByte(y, 0))
  {
    AboveParts(x, y, j);
    AboveSum(x, y, j);
  }

  lemma BelowSum(x: Word, y: Word, j: nat)
    requires 0 < j < 4
    ensures x / Bits(j) * Bits(j) + y / Bits(4 - j) ==
      if j == 1 then Join(WordByte(y, 3), WordByte(x, 1), WordByte(x, 2), WordByte(x, 3))
      else if j == 2 then Join(WordByte(y, 2), WordByte(y, 3), WordByte(x, 2), WordByte(x, 3))
      else Join(WordByte(y, 1), WordByte(y, 2), WordByte(y, 3), WordByte(x, 3))
  {
    Halves(x, j);
    Halves(y, 4 - j);
    if j == 1 {
      assert Bits(j) == 0x100;
    } else if j == 2 {
      assert Bits(j) == 0x1_0000;
    } else {
      assert Bits(j) == 0x100_0000;
    }
  }

  lemma BelowJoin(x: Word, y: Word, j: nat)
    requires 0 < j < 4
    ensures Below(x, y, j) ==
      if j == 1 then Join(WordByte(y, 3), WordByte(x, 1), WordByte(x, 2), WordByte(x, 3))
      else if j == 2 then Join(WordByte(y, 2), WordByte(y, 3), WordByte(x, 2), WordByte(x, 3))
      else Join(WordByte(y, 1), WordByte(y, 2), WordByte(y, 3), WordByte(x, 3))
  {
    BelowParts(x, y, j);
    BelowSum(x, y, j);
  }

  lemma JoinByte(b0: Byte, b1: Byte, b2: Byte, b3: Byte, i: nat)
    requires i < 4
    ensures WordByte(Join(b0, b1, b2, b3), i) == [b0, b1, b2, b3][i]
  {
    JoinBytes(b0, b1, b2, b3);
  }

  lemma AboveByte(x: Word, y: Word, j: nat, i: nat)
    requires 0 < j < 4 && i < 4
    ensures WordByte(Above(x, y, j), i) == if i < j then WordByte(x, i) else WordByte(y, i - j)
  {
    AboveJoin(x, y, j);
    if j == 1 {
      JoinByte(WordByte(x, 0), WordByte(y, 0), WordByte(y, 1), WordByte(y, 2), i);
    } else if j == 2 {
      JoinByte(WordByte(x, 0), WordByte(x, 1), WordByte(y, 0), WordByte(y, 1), i);
    } else {
      JoinByte(WordByte(x, 0), WordByte(x, 1), WordByte(x, 2), WordByte(y, 0), i);
    }
  }

  lemma BelowByte(x: Word, y: Word, j: nat, i: nat)
    requires 0 < j < 4 && i < 4
    ensures WordByte(Below(x, y, j), i) == if i < j then WordByte(y, i + 4 - j) else WordByte(x, i)
  {
    BelowJoin(x, y, j);
    if j == 1 {
      JoinByte(WordByte(y, 3), WordByte(x, 1), WordByte(x, 2), WordByte(x, 3), i);
    } else if j == 2 {
      JoinByte(WordByte(y, 2), WordByte(y, 3), WordByte(x, 2), WordByte(x, 3), i);
    } else {
      JoinByte(WordByte(y, 1), WordByte(y, 2), WordByte(y, 3), WordByte(x, 3), i);
    }
  }

  // ---------- The four instructions ----------

  /** LWL at byte `byte` of a word: its bytes up to that one, as the high bytes
      of the register. */
  function LoadLeft(prior: Word, value: Word, byte: nat): Word
    requires byte < 4
  {
    if byte == 3 then value else Above(prior, value, 3 - byte)
  }

  /** LWR: the bytes from that one on, as the low bytes of the register. */
  function LoadRight(prior: Word, value: Word, byte: nat): Word
    requires byte < 4
  {
    if byte == 0 then value else Below(prior, value, 4 - byte)
  }

  /** SWL: the high bytes of the register, to the bytes up to that one. */
  function StoreLeft(value: Word, register: Word, byte: nat): Word
    requires byte < 4
  {
    if byte == 3 then register else Below(value, register, byte + 1)
  }

  /** SWR: the low bytes of the register, to the bytes from that one on. */
  function StoreRight(value: Word, register: Word, byte: nat): Word
    requires byte < 4
  {
    if byte == 0 then register else Above(value, register, byte)
  }

  lemma LoadBytes(prior: Word, value: Word, byte: nat, i: nat)
    requires byte < 4 && i < 4
    ensures WordByte(LoadLeft(prior, value, byte), i)
         == if i < 3 - byte then WordByte(prior, i) else WordByte(value, i - (3 - byte))
    ensures WordByte(LoadRight(prior, value, byte), i)
         == if i < 4 - byte then WordByte(value, i + byte) else WordByte(prior, i)
  {
    if byte < 3 { AboveByte(prior, value, 3 - byte, i); }
    if byte > 0 { BelowByte(prior, value, 4 - byte, i); }
  }

  lemma StoreBytes(value: Word, register: Word, byte: nat, i: nat)
    requires byte < 4 && i < 4
    ensures WordByte(StoreLeft(value, register, byte), i)
         == if i <= byte then WordByte(register, i + 3 - byte) else WordByte(value, i)
    ensures WordByte(StoreRight(value, register, byte), i)
         == if i < byte then WordByte(value, i) else WordByte(register, i - byte)
  {
    if byte < 3 { BelowByte(value, register, byte + 1, i); }
    if byte > 0 { AboveByte(value, register, byte, i); }
  }
}
