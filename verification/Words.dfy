// 64-bit words used as sets of board columns, and the bit tricks of the search.
// A word is its numeric value; every operator is written out on that value.
module Words {
  const WORD := 0x1_0000_0000_0000_0000

  type Word = w: int | 0 <= w < WORD

  function Pow2(k: nat): (r: nat)
    ensures r > 0
  {
    if k == 0 then 1 else 2 * Pow2(k - 1)
  }

  // Is bit `i` of `w` set?
  predicate Bit(w: nat, i: nat)
    decreases i
  {
    if i == 0 then w % 2 == 1 else Bit(w / 2, i - 1)
  }

  function Or(a: nat, b: nat): nat {
    if a == 0 && b == 0 then 0
    else 2 * Or(a / 2, b / 2) + (if a % 2 == 1 || b % 2 == 1 then 1 else 0)
  }

  function And(a: nat, b: nat): nat {
    if a == 0 || b == 0 then 0
    else 2 * And(a / 2, b / 2) + (if a % 2 == 1 && b % 2 == 1 then 1 else 0)
  }

  function Xor(a: nat, b: nat): nat {
    if a == 0 && b == 0 then 0
    else 2 * Xor(a / 2, b / 2) + (if a % 2 != b % 2 then 1 else 0)
  }

  function Complement(a: Word): Word {
    WORD - 1 - a
  }

  // w << 1 loses the top bit, w >> 1 the bottom one.
  function ShiftLeft(a: Word): Word {
    (2 * a) % WORD
  }

  function ShiftRight(a: Word): Word {
    a / 2
  }

  // (~w + 1) & w
  function Lowest(w: Word): nat {
    And((Complement(w) + 1) % WORD, w)
  }

  /* ----- words as sets of bit positions ----- */

  lemma {:induction false} BitZero(i: nat)
    ensures !Bit(0, i)
  {
    if i > 0 { BitZero(i - 1); }
  }

  lemma {:induction false} BitOr(a: nat, b: nat, i: nat)
    ensures Bit(Or(a, b), i) <==> Bit(a, i) || Bit(b, i)
  {
    if a == 0 && b == 0 { BitZero(i); } else if i > 0 { BitOr(a / 2, b / 2, i - 1); }
  }

  lemma {:induction false} BitAnd(a: nat, b: nat, i: nat)
    ensures Bit(And(a, b), i) <==> Bit(a, i) && Bit(b, i)
  {
    if a == 0 || b == 0 { BitZero(i); } else if i > 0 { BitAnd(a / 2, b / 2, i - 1); }
  }

  lemma {:induction false} BitXor(a: nat, b: nat, i: nat)
    ensures Bit(Xor(a, b), i) <==> Bit(a, i) != Bit(b, i)
  {
    if a == 0 && b == 0 { BitZero(i); } else if i > 0 { BitXor(a / 2, b / 2, i - 1); }
  }

  // Or, And and Xor of words are words.
  lemma {:induction false} StayBelow(a: nat, b: nat, k: nat)
    requires a < Pow2(k) && b < Pow2(k)
    ensures Or(a, b) < Pow2(k) && And(a, b) < Pow2(k) && Xor(a, b) < Pow2(k)
  {
    if k > 0 { StayBelow(a / 2, b / 2, k - 1); }
  }

  lemma Pow2Plus4(k: nat)
    ensures Pow2(k + 4) == 16 * Pow2(k)
  {
    assert Pow2(k + 2) == 4 * Pow2(k);
    assert Pow2(k + 3) == 8 * Pow2(k);
  }

  lemma Pow2Plus16(k: nat)
    ensures Pow2(k + 16) == 0x1_0000 * Pow2(k)
  {
    Pow2Plus4(k);
    Pow2Plus4(k + 4);
    Pow2Plus4(k + 8);
    Pow2Plus4(k + 12);
  }

  lemma PowZero()
    ensures Pow2(0) == 1 && Pow2(64) == 2 * Pow2(63)
  {
  }

  lemma Pow2OfWord()
    ensures Pow2(64) == WORD && Pow2(63) == WORD / 2
  {
    hide Pow2;
    PowZero();
    Pow2Plus16(0);
    Pow2Plus16(16);
    Pow2Plus16(32);
    Pow2Plus16(48);
  }

  lemma {:induction false} Pow2Monotone(i: nat, j: nat)
    requires i <= j
    ensures Pow2(i) <= Pow2(j)
  {
    if i < j { Pow2Monotone(i, j - 1); }
  }

  lemma {:induction false} BitComplement(k: nat, a: nat, i: nat)
    requires a < Pow2(k)
    ensures Bit(Pow2(k) - 1 - a, i) <==> i < k && !Bit(a, i)
  {
    if k == 0 {
      BitZero(i);
    } else {
      assert (Pow2(k) - 1 - a) / 2 == Pow2(k - 1) - 1 - a / 2;
      if i > 0 { BitComplement(k - 1, a / 2, i - 1); }
    }
  }

  // 1UL << n has bit n and no other; (1UL << n) - 1 has the bits below n.
  lemma {:induction false} BitOfPow2(n: nat, i: nat)
    ensures Bit(Pow2(n), i) <==> i == n
    ensures Bit(Pow2(n) - 1, i) <==> i < n
  {
    if n > 0 && i > 0 {
      assert (Pow2(n) - 1) / 2 == Pow2(n - 1) - 1;
      BitOfPow2(n - 1, i - 1);
    } else {
      BitZero(i);
      if i > 0 { BitZero(i - 1); }
    }
  }

  lemma {:induction false} BitDropTop(k: nat, a: nat, i: nat)
    requires Pow2(k) <= a < 2 * Pow2(k) && i < k
    ensures Bit(a - Pow2(k), i) <==> Bit(a, i)
  {
    assert (a - Pow2(k)) / 2 == a / 2 - Pow2(k - 1);
    if i > 0 { BitDropTop(k - 1, a / 2, i - 1); }
  }

  lemma BitShifts(w: Word, i: nat)
    ensures Bit(ShiftRight(w), i) <==> Bit(w, i + 1)
    ensures i < 64 ==> (Bit(ShiftLeft(w), i) <==> i > 0 && Bit(w, i - 1))
  {
    if i < 64 { BitShiftLeft(w, i); }
  }

  lemma BitShiftLeft(w: Word, i: nat)
    requires i < 64
    ensures Bit(ShiftLeft(w), i) <==> i > 0 && Bit(w, i - 1)
  {
    hide Pow2;
    ShiftLeftDropsTop(w);
    if w >= Pow2(63) && i > 0 { BitDropTop(63, w, i - 1); }
  }

  lemma ShiftLeftDropsTop(w: Word)
    ensures ShiftLeft(w) == 2 * if w < Pow2(63) then w as nat else w - Pow2(63)
  {
    Pow2OfWord();
  }

  lemma BitFree(mask: Word, w: Word, i: nat)
    ensures Bit(And(mask, Complement(w)), i) <==> Bit(mask, i) && i < 64 && !Bit(w, i)
  {
    Pow2OfWord();
    BitComplement(64, w, i);
    BitAnd(mask, Complement(w), i);
  }

  lemma {:induction false} AndComplement(k: nat, a: nat)
    requires a < Pow2(k)
    ensures And(Pow2(k) - 1 - a, a) == 0
  {
    if k > 0 {
      assert (Pow2(k) - 1 - a) / 2 == Pow2(k - 1) - 1 - a / 2;
      AndComplement(k - 1, a / 2);
    }
  }

  lemma {:induction false} LowestOf(k: nat, w: nat) returns (i: nat)
    requires 0 < w < Pow2(k)
    ensures And(Pow2(k) - w, w) == Pow2(i) && Bit(w, i)
    ensures forall j: nat :: j < i ==> !Bit(w, j)
  {
    if w % 2 == 1 {
      i := 0;
      assert (Pow2(k) - w) / 2 == Pow2(k - 1) - 1 - w / 2;
      AndComplement(k - 1, w / 2);
    } else {
      assert (Pow2(k) - w) / 2 == Pow2(k - 1) - w / 2;
      var h := LowestOf(k - 1, w / 2);
      i := h + 1;
    }
  }

  // The loop step `bit = lowest; bitmap ^= bit`: the bit stands for the smallest
  // position set, and exactly that position is cleared.
  lemma LowestBit(w: Word) returns (i: nat)
    requires w != 0
    ensures Lowest(w) == Pow2(i) && Bit(w, i)
    ensures forall j: nat :: j < i ==> !Bit(w, j)
    ensures forall j: nat :: Bit(Xor(w, Lowest(w)), j) <==> Bit(w, j) && j != i
  {
    hide Pow2, And, Xor, Bit;
    Pow2OfWord();
    i := LowestOf(64, w);
    forall j: nat
      ensures Bit(Xor(w, Lowest(w)), j) <==> Bit(w, j) && j != i
    {
      BitXor(w, Pow2(i), j);
      BitOfPow2(i, j);
    }
  }

  lemma {:induction false} SomeBit(w: nat) returns (i: nat)
    requires w > 0
    ensures Bit(w, i)
  {
    if w % 2 == 1 { i := 0; } else { var h := SomeBit(w / 2); i := h + 1; }
  }

  // A word is determined by its bits.
  lemma {:induction false} SameBits(a: nat, b: nat)
    requires forall i: nat :: Bit(a, i) <==> Bit(b, i)
    ensures a == b
  {
    if a == 0 && b == 0 { return; }
    assert Bit(a, 0) <==> Bit(b, 0);
    forall i: nat
      ensures Bit(a / 2, i) <==> Bit(b / 2, i)
    {
      assert Bit(a, i + 1) <==> Bit(b, i + 1);
    }
    SameBits(a / 2, b / 2);
  }

  /* ----- the operators on words ----- */

  function WordOr(a: Word, b: Word): Word {
    Pow2OfWord();
    StayBelow(a, b, 64);
    Or(a, b)
  }

  function WordAnd(a: Word, b: Word): Word {
    Pow2OfWord();
    StayBelow(a, b, 64);
    And(a, b)
  }

  function WordXor(a: Word, b: Word): Word {
    Pow2OfWord();
    StayBelow(a, b, 64);
    Xor(a, b)
  }

  // 1UL << i
  function WordBit(i: nat): Word
    requires i < 64
  {
    Pow2OfWord();
    Pow2Monotone(i, 63);
    Pow2(i)
  }

  function LowestWord(w: Word): Word {
    WordAnd((Complement(w) + 1) % WORD, w)
  }
}
