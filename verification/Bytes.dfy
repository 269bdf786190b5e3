/** Machine words and their bytes, as the little-endian host lays them out.

    Words are unsigned 32-bit values; `|`, `&`, `~` and `1 << k` are defined
    bit by bit on their binary digits. */
module Bytes {

  const WORD_SIZE := 0x1_0000_0000

  type Byte = b: int | 0 <= b < 256
  type Word = w: int | 0 <= w < 0x1_0000_0000
  type Int32 = i: int | -0x8000_0000 <= i < 0x8000_0000

  // ---------- Bits ----------

  function Pow2(k: nat): (p: nat)
    ensures p > 0
  {
    if k == 0 then 1 else 2 * Pow2(k - 1)
  }

  /** Binary digit `k` of `w`. */
  predicate Bit(w: nat, k: nat) {
    if k == 0 then w % 2 == 1 else Bit(w / 2, k - 1)
  }

  function Or(a: nat, b: nat): nat {
    if a == 0 && b == 0 then 0
    else (if a % 2 == 1 || b % 2 == 1 then 1 else 0) + 2 * Or(a / 2, b / 2)
  }

  function And(a: nat, b: nat): nat {
    if a == 0 || b == 0 then 0
    else (if a % 2 == 1 && b % 2 == 1 then 1 else 0) + 2 * And(a / 2, b / 2)
  }

  function Not(w: Word): Word {
    WORD_SIZE - 1 - w
  }

  lemma {:induction false} ZeroBits(k: nat)
    ensures !Bit(0, k)
  {
    if k > 0 { ZeroBits(k - 1); }
  }

  lemma {:induction false} OrBits(a: nat, b: nat, k: nat)
    ensures Bit(Or(a, b), k) <==> Bit(a, k) || Bit(b, k)
  {
    if a == 0 && b == 0 {
      ZeroBits(k);
    } else if k > 0 {
      OrBits(a / 2, b / 2, k - 1);
    }
  }

  lemma {:induction false} AndBits(a: nat, b: nat, k: nat)
    ensures Bit(And(a, b), k) <==> Bit(a, k) && Bit(b, k)
  {
    if a == 0 || b == 0 {
      ZeroBits(k);
    } else if k > 0 {
      AndBits(a / 2, b / 2, k - 1);
    }
  }

  lemma {:induction false} Pow2Bits(n: nat, k: nat)
    ensures Bit(Pow2(n), k) <==> k == n
  {
    if n == 0 {
      if k > 0 { ZeroBits(k - 1); }
    } else if k > 0 {
      Pow2Bits(n - 1, k - 1);
    }
  }

  /** The complement within `n` digits flips each of them. */
  lemma {:induction false} ComplementBits(w: nat, n: nat, k: nat)
    requires w < Pow2(n) && k < n
    ensures Bit(Pow2(n) - 1 - w, k) <==> !Bit(w, k)
  {
    if k > 0 {
      assert (Pow2(n) - 1 - w) / 2 == Pow2(n - 1) - 1 - w / 2;
      ComplementBits(w / 2, n - 1, k - 1);
    }
  }

  /** A number that fits `n` digits is determined by them. */
  lemma {:induction false} BitsDetermine(v: nat, w: nat, n: nat)
    requires v < Pow2(n) && w < Pow2(n)
    requires forall k | 0 <= k < n :: Bit(v, k) == Bit(w, k)
    ensures v == w
  {
    if n > 0 {
      assert Bit(v, 0) == Bit(w, 0);
      forall k | 0 <= k < n - 1
        ensures Bit(v / 2, k) == Bit(w / 2, k)
      {
        assert Bit(v, k + 1) == Bit(w, k + 1);
      }
      BitsDetermine(v / 2, w / 2, n - 1);
    }
  }

  lemma {:induction false} OrFits(a: nat, b: nat, n: nat)
    requires a < Pow2(n) && b < Pow2(n)
    ensures Or(a, b) < Pow2(n)
  {
    if n > 0 && (a != 0 || b != 0) { OrFits(a / 2, b / 2, n - 1); }
  }

  lemma {:induction false} AndFits(a: nat, b: nat)
    ensures And(a, b) <= a
  {
    if a != 0 && b != 0 { AndFits(a / 2, b / 2); }
  }

  /** The mask test `w & (1 << k)` reads digit `k`. */
  lemma {:induction false} MaskTest(w: nat, k: nat)
    ensures And(w, Pow2(k)) != 0 <==> Bit(w, k)
  {
    if w == 0 {
      ZeroBits(k);
    } else if k == 0 {
      assert And(w / 2, 0) == 0;
    } else {
      MaskTest(w / 2, k - 1);
    }
  }

  lemma Pow2Of32()
    ensures Pow2(32) == WORD_SIZE
  {
    assert Pow2(8) == 256;
    assert Pow2(16) == 65536;
    assert Pow2(24) == 16777216;
  }

  lemma {:induction false} Pow2Monotone(j: nat, k: nat)
    requires j <= k
    ensures Pow2(j) <= Pow2(k)
  {
    if j < k { Pow2Monotone(j, k - 1); }
  }

  // ---------- Bytes ----------

  function WordByte(w: Word, j: nat): Byte
    requires j < 4
  {
    if j == 0 then w % 256
    else if j == 1 then w / 256 % 256
    else if j == 2 then w / 256 / 256 % 256
    else w / 256 / 256 / 256
  }

  function WordAt(s: seq<Byte>, p: nat): Word
    requires p + 4 <= |s|
  {
    var b0: int, b1: int, b2: int, b3: int := s[p], s[p + 1], s[p + 2], s[p + 3];
    b0 + 256 * b1 + 65536 * b2 + 16777216 * b3
  }

  function EncodeWords(ws: seq<Word>): (s: seq<Byte>)
    ensures |s| == 4 * |ws|
  {
    seq(4 * |ws|, k requires 0 <= k < 4 * |ws| => WordByte(ws[k / 4], k % 4))
  }

  function DecodeWords(s: seq<Byte>, n: nat): (ws: seq<Word>)
    requires 4 * n <= |s|
    ensures |ws| == n
  {
    seq(n, i requires 0 <= i < n => WordAt(s, 4 * i))
  }

  lemma WordBytesRoundTrip(s: seq<Byte>, p: nat, w: Word)
    requires p + 4 <= |s|
    requires forall j | 0 <= j < 4 :: s[p + j] == WordByte(w, j)
    ensures WordAt(s, p) == w
  {
    var q1, q2, q3 := w / 256, w / 256 / 256, w / 256 / 256 / 256;
    assert w == 256 * q1 + w % 256 && q1 == 256 * q2 + q1 % 256 && q2 == 256 * q3 + q2 % 256;
    assert s[p + 0] == WordByte(w, 0) && s[p + 1] == WordByte(w, 1);
    assert s[p + 2] == WordByte(w, 2) && s[p + 3] == WordByte(w, 3);
  }

  lemma WordsRoundTrip(ws: seq<Word>)
    ensures DecodeWords(EncodeWords(ws), |ws|) == ws
  {
    var s := EncodeWords(ws);
    forall i | 0 <= i < |ws|
      ensures WordAt(s, 4 * i) == ws[i]
    {
      forall j | 0 <= j < 4
        ensures s[4 * i + j] == WordByte(ws[i], j)
      {
        assert (4 * i + j) / 4 == i && (4 * i + j) % 4 == j;
      }
      WordBytesRoundTrip(s, 4 * i, ws[i]);
    }
  }

  // ---------- Signed integers ----------

  function IntWord(i: Int32): Word {
    if i < 0 then i + WORD_SIZE else i
  }

  function WordInt(w: Word): Int32 {
    if w < 0x8000_0000 then w else w - WORD_SIZE
  }

  function EncodeInts(ints: seq<Int32>): (s: seq<Byte>)
    ensures |s| == 4 * |ints|
  {
    EncodeWords(seq(|ints|, k requires 0 <= k < |ints| => IntWord(ints[k])))
  }

  function DecodeInts(s: seq<Byte>, n: nat): (ints: seq<Int32>)
    requires 4 * n <= |s|
    ensures |ints| == n
  {
    seq(n, i requires 0 <= i < n => WordInt(WordAt(s, 4 * i)))
  }

  lemma IntsRoundTrip(ints: seq<Int32>)
    ensures DecodeInts(EncodeInts(ints), |ints|) == ints
  {
    var ws := seq(|ints|, k requires 0 <= k < |ints| => IntWord(ints[k]));
    WordsRoundTrip(ws);
    assert DecodeWords(EncodeInts(ints), |ints|) == ws;
    forall i | 0 <= i < |ints|
      ensures WordInt(WordAt(EncodeInts(ints), 4 * i)) == ints[i]
    {
      assert DecodeWords(EncodeInts(ints), |ints|)[i] == WordAt(EncodeInts(ints), 4 * i);
    }
  }
}
