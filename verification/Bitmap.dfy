/** The bitmap of lib/bitmap.cc: an array of 32-bit words.  The functions on
    word sequences say what each operation does to the words; the lemmas say
    what that means for the set of marked bits. */
module Bitmaps {
  import opened Bytes

  const BITS_IN_WORD := 32

  // ---------- Operations on words ----------

  predicate Covers(ws: seq<Word>, n: nat) {
    n <= BITS_IN_WORD * |ws|
  }

  predicate Test(ws: seq<Word>, i: nat)
    requires i < BITS_IN_WORD * |ws|
  {
    Bit(ws[i / BITS_IN_WORD], i % BITS_IN_WORD)
  }

  function MarkWord(w: Word, k: nat): Word
    requires k < BITS_IN_WORD
  {
    Pow2Of32();
    MaskFits(k);
    OrFits(w, Pow2(k), BITS_IN_WORD);
    Or(w, Pow2(k))
  }

  function ClearWord(w: Word, k: nat): Word
    requires k < BITS_IN_WORD
  {
    MaskFits(k);
    AndFits(w, Not(Pow2(k)));
    And(w, Not(Pow2(k)))
  }

  function Mark(ws: seq<Word>, i: nat): (r: seq<Word>)
    requires i < BITS_IN_WORD * |ws|
  {
    ws[i / BITS_IN_WORD := MarkWord(ws[i / BITS_IN_WORD], i % BITS_IN_WORD)]
  }

  function Clear(ws: seq<Word>, i: nat): (r: seq<Word>)
    requires i < BITS_IN_WORD * |ws|
  {
    ws[i / BITS_IN_WORD := ClearWord(ws[i / BITS_IN_WORD], i % BITS_IN_WORD)]
  }

  /** The least clear bit below `n`, or -1. */
  function FirstClear(ws: seq<Word>, n: nat): (r: int)
    requires Covers(ws, n)
    ensures -1 <= r < n
    ensures r >= 0 ==> !Test(ws, r)
    ensures forall i | 0 <= i < n && (r < 0 || i < r) :: Test(ws, i)
  {
    if n == 0 then -1
    else
      var r := FirstClear(ws, n - 1);
      if r < 0 && !Test(ws, n - 1) then n - 1 else r
  }

  function CountClear(ws: seq<Word>, n: nat): nat
    requires Covers(ws, n)
  {
    if n == 0 then 0
    else CountClear(ws, n - 1) + (if Test(ws, n - 1) then 0 else 1)
  }

  ghost function Marked(ws: seq<Word>, n: nat): set<int>
    requires Covers(ws, n)
  {
    set i | 0 <= i < n && Test(ws, i)
  }

  // ---------- What they mean for the set of marked bits ----------

  lemma MaskFits(k: nat)
    requires k < BITS_IN_WORD
    ensures Pow2(k) < WORD_SIZE
  {
    Pow2Of32();
    Pow2Monotone(k, 31);
  }

  lemma MarkWordBits(w: Word, k: nat, j: nat)
    requires k < BITS_IN_WORD && j < BITS_IN_WORD
    ensures Bit(MarkWord(w, k), j) <==> j == k || Bit(w, j)
  {
    OrBits(w, Pow2(k), j);
    Pow2Bits(k, j);
  }

  lemma ClearWordBits(w: Word, k: nat, j: nat)
    requires k < BITS_IN_WORD && j < BITS_IN_WORD
    ensures Bit(ClearWord(w, k), j) <==> j != k && Bit(w, j)
  {
    MaskFits(k);
    Pow2Of32();
    AndBits(w, Not(Pow2(k)), j);
    ComplementBits(Pow2(k), BITS_IN_WORD, j);
    Pow2Bits(k, j);
  }

  lemma TestMark(ws: seq<Word>, i: nat, j: nat)
    requires i < BITS_IN_WORD * |ws| && j < BITS_IN_WORD * |ws|
    ensures Test(Mark(ws, i), j) <==> j == i || Test(ws, j)
  {
    if i / BITS_IN_WORD == j / BITS_IN_WORD { MarkWordBits(ws[i / BITS_IN_WORD], i % BITS_IN_WORD, j % BITS_IN_WORD); }
  }

  lemma TestClear(ws: seq<Word>, i: nat, j: nat)
    requires i < BITS_IN_WORD * |ws| && j < BITS_IN_WORD * |ws|
    ensures Test(Clear(ws, i), j) <==> j != i && Test(ws, j)
  {
    if i / BITS_IN_WORD == j / BITS_IN_WORD { ClearWordBits(ws[i / BITS_IN_WORD], i % BITS_IN_WORD, j % BITS_IN_WORD); }
  }

  lemma MarkedMark(ws: seq<Word>, n: nat, i: nat)
    requires Covers(ws, n) && i < n
    ensures Marked(Mark(ws, i), n) == Marked(ws, n) + {i}
  {
    forall j | 0 <= j < n
      ensures Test(Mark(ws, i), j) <==> j == i || Test(ws, j)
    { TestMark(ws, i, j); }
  }

  lemma MarkedClear(ws: seq<Word>, n: nat, i: nat)
    requires Covers(ws, n) && i < n
    ensures Marked(Clear(ws, i), n) == Marked(ws, n) - {i}
  {
    forall j | 0 <= j < n
      ensures Test(Clear(ws, i), j) <==> j != i && Test(ws, j)
    { TestClear(ws, i, j); }
  }

  /** `NumClear` is the size of the complement. */
  lemma {:induction false} CountClearIsComplement(ws: seq<Word>, n: nat)
    requires Covers(ws, n)
    ensures CountClear(ws, n) + |Marked(ws, n)| == n
  {
    if n > 0 {
      CountClearIsComplement(ws, n - 1);
      if Test(ws, n - 1) {
        assert Marked(ws, n) == Marked(ws, n - 1) + {n - 1};
      } else {
        assert Marked(ws, n) == Marked(ws, n - 1);
      }
    }
  }

  /** A full map of words is determined by its set of marked bits. */
  lemma MarkedDetermines(v: seq<Word>, w: seq<Word>)
    requires |v| == |w|
    requires Marked(v, BITS_IN_WORD * |v|) == Marked(w, BITS_IN_WORD * |w|)
    ensures v == w
  {
    Pow2Of32();
    forall q | 0 <= q < |v|
      ensures v[q] == w[q]
    {
      forall k | 0 <= k < BITS_IN_WORD
        ensures Bit(v[q], k) == Bit(w[q], k)
      {
        var i := BITS_IN_WORD * q + k;
        assert i / BITS_IN_WORD == q && i % BITS_IN_WORD == k;
        assert i in Marked(v, BITS_IN_WORD * |v|) <==> Test(v, i);
        assert i in Marked(w, BITS_IN_WORD * |w|) <==> Test(w, i);
      }
      BitsDetermine(v[q], w[q], BITS_IN_WORD);
    }
  }

  lemma ZeroWordsUnmarked(ws: seq<Word>, n: nat)
    requires Covers(ws, n)
    requires forall q | 0 <= q < |ws| :: ws[q] == 0
    ensures Marked(ws, n) == {}
  {
    forall i | 0 <= i < n
      ensures !Test(ws, i)
    { ZeroBits(i % BITS_IN_WORD); }
  }

  // ---------- The class ----------

  class Bitmap {
    const numBits: nat
    const words: array<Word>

    ghost predicate Valid() {
      && 0 < numBits
      && words.Length == (numBits + BITS_IN_WORD - 1) / BITS_IN_WORD
    }

    constructor (numItems: nat)
      requires numItems > 0
      ensures Valid() && fresh(words) && numBits == numItems
      ensures forall q | 0 <= q < words.Length :: words[q] == 0
    {
      numBits := numItems;
      var numWords := numItems / BITS_IN_WORD + (if numItems % BITS_IN_WORD > 0 then 1 else 0);
      words := new Word[numWords](_ => 0);
      new;
      for i := 0 to numBits
        invariant forall q | 0 <= q < words.Length :: words[q] == 0
      {
        ClearBit(i);
      }
    }

    method MarkBit(which: nat)
      requires Valid() && which < numBits
      modifies words
      ensures words[..] == Mark(old(words[..]), which)
    {
      words[which / BITS_IN_WORD] := MarkWord(words[which / BITS_IN_WORD], which % BITS_IN_WORD);
      assert words[..] == Mark(old(words[..]), which);
    }

    method ClearBit(which: nat)
      requires Valid() && which < numBits
      modifies words
      ensures words[..] == Clear(old(words[..]), which)
    {
      words[which / BITS_IN_WORD] := ClearWord(words[which / BITS_IN_WORD], which % BITS_IN_WORD);
      assert words[..] == Clear(old(words[..]), which);
    }

    method TestBit(which: nat) returns (set_: bool)
      requires Valid() && which < numBits
      ensures set_ <==> Test(words[..], which)
    {
      MaskTest(words[which / BITS_IN_WORD], which % BITS_IN_WORD);
      set_ := And(words[which / BITS_IN_WORD], Pow2(which % BITS_IN_WORD)) != 0;
    }

    /** Takes the least clear bit. */
    method FindAndSet() returns (r: int)
      requires Valid()
      modifies words
      ensures r == FirstClear(old(words[..]), numBits)
      ensures words[..] == if r < 0 then old(words[..]) else Mark(old(words[..]), r)
    {
      for i := 0 to numBits
        invariant words[..] == old(words[..])
        invariant forall j | 0 <= j < i :: Test(words[..], j)
      {
        var t := TestBit(i);
        if !t {
          MarkBit(i);
          return i;
        }
      }
      return -1;
    }

    method NumClear() returns (count: nat)
      requires Valid()
      ensures count == CountClear(words[..], numBits)
    {
      count := 0;
      for i := 0 to numBits
        invariant count == CountClear(words[..], i)
      {
        var t := TestBit(i);
        if !t { count := count + 1; }
      }
    }
  }
}
