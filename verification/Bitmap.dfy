/** Bitmaps packed into 32-bit words (include/c4/klib/bitmap.h).  The operators on words are those on
    unsigned integers, digit by binary digit. */
module Bitmap {
  import opened Powers

  const BPS: nat := 32
  const FULL: nat := 0xffff_ffff

  type Word = w: nat | w <= FULL

  // ---------------------------------------------------------------- operators

  function Shr(w: nat, n: nat): nat {
    if n == 0 then w else Shr(w / 2, n - 1)
  }

  function Or(a: nat, b: nat): nat
    decreases a + b
  {
    if a == 0 && b == 0 then 0 else 2 * Or(a / 2, b / 2) + (if a % 2 == 1 || b % 2 == 1 then 1 else 0)
  }

  function And(a: nat, b: nat): nat
    decreases a + b
  {
    if a == 0 && b == 0 then 0 else 2 * And(a / 2, b / 2) + (if a % 2 == 1 && b % 2 == 1 then 1 else 0)
  }

  /** The complement in `n` binary digits. */
  function Not(a: nat, n: nat): nat
    requires a < Pow2(n)
  {
    Pow2(n) - 1 - a
  }

  /** `(w >> o) & 1` */
  predicate Bit(w: nat, o: nat) {
    Shr(w, o) % 2 == 1
  }

  lemma OrHalf(a: nat, b: nat)
    ensures Or(a, b) / 2 == Or(a / 2, b / 2) && (Or(a, b) % 2 == 1 <==> a % 2 == 1 || b % 2 == 1)
  {
  }

  lemma AndHalf(a: nat, b: nat)
    ensures And(a, b) / 2 == And(a / 2, b / 2) && (And(a, b) % 2 == 1 <==> a % 2 == 1 && b % 2 == 1)
  {
  }

  lemma {:induction false} OrBit(a: nat, b: nat, o: nat)
    ensures Bit(Or(a, b), o) <==> Bit(a, o) || Bit(b, o)
    decreases o
  {
    OrHalf(a, b);
    if o > 0 { OrBit(a / 2, b / 2, o - 1); }
  }

  lemma {:induction false} AndBit(a: nat, b: nat, o: nat)
    ensures Bit(And(a, b), o) <==> Bit(a, o) && Bit(b, o)
    decreases o
  {
    AndHalf(a, b);
    if o > 0 { AndBit(a / 2, b / 2, o - 1); }
  }

  lemma {:induction false} NotBit(a: nat, n: nat, o: nat)
    requires a < Pow2(n) && o < n
    ensures Bit(Not(a, n), o) <==> !Bit(a, o)
    decreases n
  {
    if o > 0 {
      assert Not(a, n) / 2 == Not(a / 2, n - 1);
      NotBit(a / 2, n - 1, o - 1);
    }
  }

  lemma {:induction false} Pow2Bit(n: nat, o: nat)
    ensures Bit(Pow2(n), o) <==> o == n
    decreases n
  {
    if n == 0 {
      if o > 0 { ZeroBit(o - 1); }
    } else if o > 0 {
      Pow2Bit(n - 1, o - 1);
    }
  }

  lemma {:induction false} ZeroBit(o: nat)
    ensures !Bit(0, o)
  {
    if o > 0 { ZeroBit(o - 1); }
  }

  lemma {:induction false} OrBound(a: nat, b: nat, n: nat)
    requires a < Pow2(n) && b < Pow2(n)
    ensures Or(a, b) < Pow2(n)
    decreases n
  {
    if n > 0 { OrBound(a / 2, b / 2, n - 1); }
  }

  lemma {:induction false} AndBound(a: nat, b: nat, n: nat)
    requires a < Pow2(n)
    ensures And(a, b) < Pow2(n)
    decreases n
  {
    if n > 0 { AndBound(a / 2, b / 2, n - 1); } else { AndZero(b); }
  }

  lemma {:induction false} AndZero(b: nat)
    ensures And(0, b) == 0
    decreases b
  {
    if b > 0 { AndZero(b / 2); }
  }

  /** Two numbers of `n` digits with the same digits are the same. */
  lemma {:induction false} SameBits(a: nat, b: nat, n: nat)
    requires a < Pow2(n) && b < Pow2(n) && forall o :: 0 <= o < n ==> (Bit(a, o) <==> Bit(b, o))
    ensures a == b
    decreases n
  {
    if n > 0 {
      assert Bit(a, 0) <==> Bit(b, 0);
      forall o | 0 <= o < n - 1 ensures Bit(a / 2, o) <==> Bit(b / 2, o) {
        assert Bit(a, o + 1) <==> Bit(b, o + 1);
      }
      SameBits(a / 2, b / 2, n - 1);
    }
  }

  lemma WordSize()
    ensures Pow2(BPS) == FULL + 1
  {
    assert Pow2(8) == 256;
    assert Pow2(16) == 65536;
    assert Pow2(24) == 16777216;
  }

  // ---------------------------------------------------------------- words

  /** include/c4/klib/bitmap.h:22-28, on one word: `w | (1 << o)`. */
  function WithBit(w: Word, o: nat): (r: Word)
    requires o < BPS
  {
    WordSize();
    Pow2Monotone(o, BPS);
    OrBound(w, Pow2(o), BPS);
    Or(w, Pow2(o))
  }

  /** include/c4/klib/bitmap.h:30-36, on one word: `w & ~(1 << o)`. */
  function WithoutBit(w: Word, o: nat): (r: Word)
    requires o < BPS
  {
    WordSize();
    Pow2Monotone(o, BPS);
    AndBound(w, Not(Pow2(o), BPS), BPS);
    And(w, Not(Pow2(o), BPS))
  }

  /** Setting a bit changes that bit, and no other. */
  lemma SetBit(w: Word, o: nat, j: nat)
    requires o < BPS && j < BPS
    ensures Bit(WithBit(w, o), j) <==> j == o || Bit(w, j)
  {
    OrBit(w, Pow2(o), j);
    Pow2Bit(o, j);
  }

  /** Clearing a bit changes that bit, and no other. */
  lemma UnsetBit(w: Word, o: nat, j: nat)
    requires o < BPS && j < BPS
    ensures Bit(WithoutBit(w, o), j) <==> j != o && Bit(w, j)
  {
    WordSize();
    Pow2Monotone(o, BPS);
    AndBit(w, Not(Pow2(o), BPS), j);
    NotBit(Pow2(o), BPS, j);
    Pow2Bit(o, j);
  }

  /** A word is full exactly if all its bits are set. */
  lemma FullWord(w: Word)
    ensures w == FULL <==> forall j :: 0 <= j < BPS ==> Bit(w, j)
  {
    WordSize();
    forall j | 0 <= j < BPS ensures Bit(FULL, j) {
      NotBit(0, BPS, j);
      ZeroBit(j);
    }
    if forall j :: 0 <= j < BPS ==> Bit(w, j) { SameBits(w, FULL, BPS); }
  }

  /** A word is 1 exactly if bit 0 is its only bit. */
  lemma OneWord(w: Word)
    ensures w == 1 <==> Bit(w, 0) && forall j :: 1 <= j < BPS ==> !Bit(w, j)
  {
    WordSize();
    forall j | 0 <= j < BPS ensures Bit(1, j) <==> j == 0 { Pow2Bit(0, j); }
    if Bit(w, 0) && forall j :: 1 <= j < BPS ==> !Bit(w, j) { SameBits(w, 1, BPS); }
  }

  // ---------------------------------------------------------------- bitmaps

  /** include/c4/klib/bitmap.h:15-20 */
  predicate Get(words: seq<Word>, i: nat)
    requires i / BPS < |words|
  {
    Bit(words[i / BPS], i % BPS)
  }

  lemma SetGet(words: seq<Word>, i: nat, j: nat)
    requires i / BPS < |words| && j / BPS < |words|
    ensures Get(words[i / BPS := WithBit(words[i / BPS], i % BPS)], j) <==> j == i || Get(words, j)
    ensures Get(words[i / BPS := WithoutBit(words[i / BPS], i % BPS)], j) <==> j != i && Get(words, j)
  {
    if i / BPS == j / BPS {
      SetBit(words[i / BPS], i % BPS, j % BPS);
      UnsetBit(words[i / BPS], i % BPS, j % BPS);
      assert i == i / BPS * BPS + i % BPS && j == j / BPS * BPS + j % BPS;
    }
  }

  /** include/c4/klib/bitmap.h:22-28 */
  method BitmapSet(bitmap: array<Word>, i: nat)
    requires i / BPS < bitmap.Length
    modifies bitmap
    ensures forall j :: 0 <= j && j / BPS < bitmap.Length ==>
              (Get(bitmap[..], j) <==> j == i || old(Get(bitmap[..], j)))
  {
    ghost var before := bitmap[..];
    bitmap[i / BPS] := WithBit(bitmap[i / BPS], i % BPS);
    forall j | 0 <= j && j / BPS < bitmap.Length ensures Get(bitmap[..], j) <==> j == i || Get(before, j) {
      SetGet(before, i, j);
      assert bitmap[..] == before[i / BPS := WithBit(before[i / BPS], i % BPS)];
    }
  }

  /** include/c4/klib/bitmap.h:30-36 */
  method BitmapUnset(bitmap: array<Word>, i: nat)
    requires i / BPS < bitmap.Length
    modifies bitmap
    ensures forall j :: 0 <= j && j / BPS < bitmap.Length ==>
              (Get(bitmap[..], j) <==> j != i && old(Get(bitmap[..], j)))
  {
    ghost var before := bitmap[..];
    bitmap[i / BPS] := WithoutBit(bitmap[i / BPS], i % BPS);
    forall j | 0 <= j && j / BPS < bitmap.Length ensures Get(bitmap[..], j) <==> j != i && Get(before, j) {
      SetGet(before, i, j);
      assert bitmap[..] == before[i / BPS := WithoutBit(before[i / BPS], i % BPS)];
    }
  }

  /** include/c4/klib/bitmap.h:38-46: the lowest clear bit below `limit`, or -1. */
  method FirstFree(words: seq<Word>, limit: nat) returns (n: int)
    requires limit <= |words| * BPS
    ensures -1 <= n < limit
    ensures n >= 0 ==> n / BPS < |words| && !Get(words, n)
    ensures n >= 0 ==> forall j :: 0 <= j < n ==> j / BPS < |words| && Get(words, j)
    ensures n < 0 ==> forall j :: 0 <= j < limit ==> j / BPS < |words| && Get(words, j)
  {
    for i := 0 to limit
      invariant forall j :: 0 <= j < i ==> j / BPS < |words| && Get(words, j)
    {
      if !Get(words, i) {
        return i;
      }
    }
    return -1;
  }
}
