/**
 64-bit machine words as natural numbers, with the bitwise operators that the page tables and the
 frame bitmap are written in. Every operator is characterised by its effect on single bits, and
 two words with the same bits are the same word.
 */
module Words {

  const WORD: nat := 0x1_0000_0000_0000_0000

  function Pow2(n: nat): (r: nat)
    ensures r > 0
  {
    if n == 0 then 1 else 2 * Pow2(n - 1)
  }

  /** Bit `i` of `x`, counting from the least significant. */
  predicate Bit(x: nat, i: nat)
  {
    if i == 0 then x % 2 == 1 else Bit(x / 2, i - 1)
  }

  function And(a: nat, b: nat): nat
    decreases a
  {
    if a == 0 || b == 0 then 0
    else (if a % 2 == 1 && b % 2 == 1 then 1 else 0) + 2 * And(a / 2, b / 2)
  }

  function Or(a: nat, b: nat): nat
    decreases a
  {
    if a == 0 then b
    else if b == 0 then a
    else (if a % 2 == 1 || b % 2 == 1 then 1 else 0) + 2 * Or(a / 2, b / 2)
  }

  /** Complement of a 64-bit word. */
  function Not(a: nat): nat
    requires a < WORD
  {
    WORD - 1 - a
  }

  lemma {:induction false} BitOfZero(i: nat)
    ensures !Bit(0, i)
  {
    if i > 0 { BitOfZero(i - 1); }
  }

  lemma {:induction false} BitAnd(a: nat, b: nat, i: nat)
    ensures Bit(And(a, b), i) == (Bit(a, i) && Bit(b, i))
  {
    if a == 0 || b == 0 {
      BitOfZero(i);
    } else if i > 0 {
      BitAnd(a / 2, b / 2, i - 1);
    }
  }

  lemma {:induction false} BitOr(a: nat, b: nat, i: nat)
    ensures Bit(Or(a, b), i) == (Bit(a, i) || Bit(b, i))
  {
    if a == 0 || b == 0 {
      BitOfZero(i);
    } else if i > 0 {
      BitOr(a / 2, b / 2, i - 1);
    }
  }

  lemma {:induction false} BitComplement(a: nat, n: nat, i: nat)
    requires a < Pow2(n) && i < n
    ensures Bit(Pow2(n) - 1 - a, i) == !Bit(a, i)
  {
    if i > 0 {
      BitComplement(a / 2, n - 1, i - 1);
      assert (Pow2(n) - 1 - a) / 2 == Pow2(n - 1) - 1 - a / 2;
    }
  }

  lemma BitNot(a: nat, i: nat)
    requires a < WORD && i < 64
    ensures Bit(Not(a), i) == !Bit(a, i)
  {
    Powers();
    BitComplement(a, 64, i);
  }

  lemma {:induction false} BitPow2(k: nat, i: nat)
    ensures Bit(Pow2(k), i) == (i == k)
  {
    if k == 0 {
      if i > 0 { BitOfZero(i - 1); }
    } else if i > 0 {
      BitPow2(k - 1, i - 1);
    }
  }

  lemma {:induction false} HighBitsClear(x: nat, n: nat, i: nat)
    requires x < Pow2(n) && n <= i
    ensures !Bit(x, i)
  {
    if n == 0 { BitOfZero(i); } else { HighBitsClear(x / 2, n - 1, i - 1); }
  }

  lemma {:induction false} LowBitsClear(q: nat, n: nat, i: nat)
    requires i < n
    ensures !Bit(Pow2(n) * q, i)
  {
    var half := Pow2(n - 1) * q;
    assert Pow2(n) * q == 2 * half;
    if i > 0 { LowBitsClear(q, n - 1, i - 1); }
  }

  /** A word is determined by its bits. */
  lemma {:induction false} SameBits(a: nat, b: nat)
    requires forall i: nat :: Bit(a, i) == Bit(b, i)
    ensures a == b
    decreases a + b
  {
    assert Bit(a, 0) == Bit(b, 0);
    if a > 0 || b > 0 {
      forall i: nat
        ensures Bit(a / 2, i) == Bit(b / 2, i)
      {
        assert Bit(a, i + 1) == Bit(b, i + 1);
      }
      SameBits(a / 2, b / 2);
    }
  }

  /** Only bits below `n` means below `Pow2(n)`. */
  lemma {:induction false} BoundFromBits(x: nat, n: nat)
    requires forall i: nat :: n <= i ==> !Bit(x, i)
    ensures x < Pow2(n)
    decreases x
  {
    if x > 0 {
      if n == 0 {
        HasSomeBit(x);
      } else {
        forall i: nat | n - 1 <= i
          ensures !Bit(x / 2, i)
        {
          assert !Bit(x, i + 1);
        }
        BoundFromBits(x / 2, n - 1);
      }
    }
  }

  lemma {:induction false} HasSomeBit(x: nat)
    requires x > 0
    ensures exists i: nat :: Bit(x, i)
  {
    if x % 2 == 1 {
      assert Bit(x, 0);
    } else {
      HasSomeBit(x / 2);
      var i: nat :| Bit(x / 2, i);
      assert Bit(x, i + 1);
    }
  }

  /** Testing a word against a one-bit mask reads that bit. */
  lemma TestBit(x: nat, k: nat)
    ensures And(x, Pow2(k)) != 0 <==> Bit(x, k)
  {
    BitAnd(x, Pow2(k), k);
    BitPow2(k, k);
    BitOfZero(k);
    if And(x, Pow2(k)) > 0 {
      HasSomeBit(And(x, Pow2(k)));
      var i: nat :| Bit(And(x, Pow2(k)), i);
      BitAnd(x, Pow2(k), i);
      BitPow2(k, i);
    }
  }

  lemma OrBound(a: nat, b: nat, n: nat)
    requires a < Pow2(n) && b < Pow2(n)
    ensures Or(a, b) < Pow2(n)
  {
    forall i: nat | n <= i
      ensures !Bit(Or(a, b), i)
    {
      HighBitsClear(a, n, i);
      HighBitsClear(b, n, i);
      BitOr(a, b, i);
    }
    BoundFromBits(Or(a, b), n);
  }

  lemma AndBound(a: nat, b: nat, n: nat)
    requires a < Pow2(n)
    ensures And(a, b) < Pow2(n)
  {
    forall i: nat | n <= i
      ensures !Bit(And(a, b), i)
    {
      HighBitsClear(a, n, i);
      BitAnd(a, b, i);
    }
    BoundFromBits(And(a, b), n);
  }

  /** Setting bit `k` changes bit `k` and no other. */
  lemma SetBit(w: nat, k: nat)
    requires w < WORD && k < 64
    ensures Or(w, Pow2(k)) < WORD
    ensures forall i: nat :: Bit(Or(w, Pow2(k)), i) == (i == k || Bit(w, i))
  {
    Powers();
    PowerBelowWord(k);
    OrBound(w, Pow2(k), 64);
    forall i: nat
      ensures Bit(Or(w, Pow2(k)), i) == (i == k || Bit(w, i))
    {
      BitOr(w, Pow2(k), i);
      BitPow2(k, i);
    }
  }

  /** Clearing bit `k` changes bit `k` and no other. */
  lemma ClearBit(w: nat, k: nat)
    requires w < WORD && k < 64
    ensures Pow2(k) < WORD
    ensures And(w, Not(Pow2(k))) < WORD
    ensures forall i: nat :: i < 64 ==> Bit(And(w, Not(Pow2(k))), i) == (i != k && Bit(w, i))
  {
    PowerBelowWord(k);
    Powers();
    AndBound(w, Not(Pow2(k)), 64);
    forall i: nat | i < 64
      ensures Bit(And(w, Not(Pow2(k))), i) == (i != k && Bit(w, i))
    {
      BitAnd(w, Not(Pow2(k)), i);
      BitNot(Pow2(k), i);
      BitPow2(k, i);
    }
  }

  lemma {:induction false} PowerMonotone(a: nat, b: nat)
    requires a < b
    ensures Pow2(a) < Pow2(b)
  {
    if a + 1 < b { PowerMonotone(a, b - 1); }
  }

  lemma PowerBelowWord(k: nat)
    requires k < 64
    ensures Pow2(k) < WORD
  {
    PowerMonotone(k, 64);
    Powers();
  }

  /** All 64 bits of the all-ones word are set. */
  lemma AllOnes(i: nat)
    requires i < 64
    ensures Bit(WORD - 1, i)
  {
    BitNot(0, i);
    BitOfZero(i);
  }

  /** A mask of the low `n` bits takes the remainder modulo `Pow2(n)`. */
  lemma {:induction false} AndLowMask(x: nat, n: nat) returns (q: nat)
    ensures x == Pow2(n) * q + And(x, Pow2(n) - 1)
    ensures And(x, Pow2(n) - 1) < Pow2(n)
  {
    if n == 0 {
      q := x;
    } else if x == 0 {
      q := 0;
    } else {
      q := AndLowMask(x / 2, n - 1);
      AndOddMask(x, Pow2(n - 1));
      Reassociate(Pow2(n - 1), q);
    }
  }

  lemma AndOddMask(x: nat, half: nat)
    requires x > 0 && half > 0
    ensures And(x, 2 * half - 1) == x % 2 + 2 * And(x / 2, half - 1)
  {
    assert (2 * half - 1) % 2 == 1 && (2 * half - 1) / 2 == half - 1;
  }

  lemma Reassociate(d: nat, q: nat)
    ensures (2 * d) * q == 2 * (d * q)
  {
  }

  lemma AndZero(mask: nat)
    ensures And(0, mask) == 0
  {
  }

  lemma AndHalves(x: nat, mask: nat)
    ensures And(x, mask) == (if x % 2 == 1 && mask % 2 == 1 then 1 else 0) + 2 * And(x / 2, mask / 2)
  {
  }

  /** A mask and its complement split a word in two. */
  lemma {:induction false} AndSplit(x: nat, mask: nat, n: nat)
    requires x < Pow2(n) && mask < Pow2(n)
    ensures And(x, mask) + And(x, Pow2(n) - 1 - mask) == x
  {
    hide And;
    if x == 0 {
      AndZero(mask);
      AndZero(Pow2(n) - 1 - mask);
    } else {
      AndSplit(x / 2, mask / 2, n - 1);
      AndHalves(x, mask);
      AndHalves(x, Pow2(n) - 1 - mask);
      assert (Pow2(n) - 1 - mask) / 2 == Pow2(n - 1) - 1 - mask / 2;
      assert (Pow2(n) - 1 - mask) % 2 != mask % 2;
    }
  }

  lemma {:induction false} PowerOfSum(a: nat, b: nat)
    ensures Pow2(a + b) == Pow2(a) * Pow2(b)
  {
    if a > 0 { PowerOfSum(a - 1, b); }
  }

  /** The powers that appear as constants in page-table entries and masks. */
  lemma Powers()
    ensures Pow2(0) == 1 && Pow2(1) == 2 && Pow2(7) == 128 && Pow2(9) == 512
    ensures Pow2(12) == 4096 && Pow2(21) == 0x20_0000
    ensures Pow2(52) == 0x10_0000_0000_0000
    ensures Pow2(63) == 0x8000_0000_0000_0000 && Pow2(64) == WORD
  {
    assert Pow2(2) == 4;
    assert Pow2(3) == 8;
    PowerOfSum(3, 4);
    PowerOfSum(2, 7);
    PowerOfSum(3, 9);
    PowerOfSum(9, 12);
    PowerOfSum(12, 9 + 21);
    PowerOfSum(9, 21);
    PowerOfSum(9, 12 + 42);
    PowerOfSum(21, 21);
    PowerOfSum(21, 42);
    PowerOfSum(9, 1 + 42);
    PowerOfSum(1, 9 + 42);
    PowerOfSum(9, 42);
    PowerOfSum(1, 63);
  }
}
