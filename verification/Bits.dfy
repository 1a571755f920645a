/** Bit operations on unsigned machine words, written on naturals. */
module Bits {

  predicate Bit(m: nat, i: nat)
    decreases i
  {
    if i == 0 then m % 2 == 1 else Bit(m / 2, i - 1)
  }

  /** m | (1 << i) */
  function SetBit(m: nat, i: nat): nat
    decreases i
  {
    if i == 0 then m / 2 * 2 + 1 else m % 2 + 2 * SetBit(m / 2, i - 1)
  }

  /** m & ~(1 << i) */
  function ClearBit(m: nat, i: nat): nat
    decreases i
  {
    if i == 0 then m / 2 * 2 else m % 2 + 2 * ClearBit(m / 2, i - 1)
  }

  function Xor(a: nat, b: nat): nat
    decreases a + b
  {
    if a == 0 && b == 0 then 0
    else (if a % 2 == b % 2 then 0 else 1) + 2 * Xor(a / 2, b / 2)
  }

  function And(a: nat, b: nat): nat
    decreases a + b
  {
    if a == 0 && b == 0 then 0
    else (if a % 2 == 1 && b % 2 == 1 then 1 else 0) + 2 * And(a / 2, b / 2)
  }

  lemma {:induction false} SetBitBits(m: nat, i: nat, j: nat)
    ensures Bit(SetBit(m, i), j) <==> j == i || Bit(m, j)
    decreases i
  {
    if i > 0 && j > 0 {
      SetBitBits(m / 2, i - 1, j - 1);
    }
  }

  lemma {:induction false} ClearBitBits(m: nat, i: nat, j: nat)
    ensures Bit(ClearBit(m, i), j) <==> j != i && Bit(m, j)
    decreases i
  {
    if i > 0 && j > 0 {
      ClearBitBits(m / 2, i - 1, j - 1);
    }
  }

  lemma {:induction false} ZeroBits(i: nat)
    ensures !Bit(0, i)
    decreases i
  {
    if i > 0 {
      ZeroBits(i - 1);
    }
  }

  /** A bit below n, set in a word below 2^n, keeps the word below 2^n (n <= 8 here). */
  lemma SetBitByte(m: nat, i: nat)
    requires m < 256 && i < 8
    ensures SetBit(m, i) < 256
  {
    Pow2Of16();
    SetBitBound(m, i, 8);
  }

  function Pow2(n: nat): nat
  {
    if n == 0 then 1 else 2 * Pow2(n - 1)
  }

  lemma Pow2Of16()
    ensures Pow2(8) == 256 && Pow2(16) == 0x1_0000
  {
    assert Pow2(4) == 16;
    assert Pow2(8) == 16 * Pow2(4);
    assert Pow2(12) == 16 * Pow2(8);
    assert Pow2(16) == 16 * Pow2(12);
  }

  lemma {:induction false} SetBitBound(m: nat, i: nat, n: nat)
    requires m < Pow2(n) && i < n
    ensures SetBit(m, i) < Pow2(n)
    decreases i
  {
    HalfBelow(m, Pow2(n - 1));
    if i > 0 {
      SetBitBound(m / 2, i - 1, n - 1);
    }
  }

  lemma HalfBelow(m: nat, q: nat)
    requires m < 2 * q
    ensures m / 2 < q
  {
  }

  lemma {:induction false} ClearBitBound(m: nat, i: nat)
    ensures ClearBit(m, i) <= m
    decreases i
  {
    if i > 0 {
      ClearBitBound(m / 2, i - 1);
    }
  }

  lemma {:induction false} XorComm(a: nat, b: nat)
    ensures Xor(a, b) == Xor(b, a)
    decreases a + b
  {
    if a != 0 || b != 0 {
      XorComm(a / 2, b / 2);
    }
  }

  lemma {:induction false} XorAssoc(a: nat, b: nat, c: nat)
    ensures Xor(Xor(a, b), c) == Xor(a, Xor(b, c))
    decreases a + b + c
  {
    if a != 0 || b != 0 || c != 0 {
      XorAssoc(a / 2, b / 2, c / 2);
      assert Xor(a, b) / 2 == Xor(a / 2, b / 2);
      assert Xor(b, c) / 2 == Xor(b / 2, c / 2);
    }
  }

  lemma {:induction false} XorZero(a: nat)
    ensures Xor(a, 0) == a && Xor(0, a) == a
  {
    if a != 0 {
      XorZero(a / 2);
    }
  }

  lemma {:induction false} XorSelf(a: nat)
    ensures Xor(a, a) == 0
  {
    if a != 0 {
      XorSelf(a / 2);
    }
  }

  lemma {:induction false} XorBound(a: nat, b: nat, n: nat)
    requires a < Pow2(n) && b < Pow2(n)
    ensures Xor(a, b) < Pow2(n)
    decreases n
  {
    if a != 0 || b != 0 {
      XorBound(a / 2, b / 2, n - 1);
    }
  }

  /** What exclusive or and and do, bit by bit. */
  lemma {:induction false} XorBits(a: nat, b: nat, i: nat)
    ensures Bit(Xor(a, b), i) <==> Bit(a, i) != Bit(b, i)
    decreases i
  {
    if i > 0 {
      XorBits(a / 2, b / 2, i - 1);
    } else {
      assert Xor(a, b) % 2 == if a % 2 == b % 2 then 0 else 1;
    }
  }

  lemma {:induction false} AndBits(a: nat, b: nat, i: nat)
    ensures Bit(And(a, b), i) <==> Bit(a, i) && Bit(b, i)
    decreases i
  {
    if i > 0 {
      AndBits(a / 2, b / 2, i - 1);
    } else {
      assert And(a, b) % 2 == if a % 2 == 1 && b % 2 == 1 then 1 else 0;
    }
  }

  lemma {:induction false} AndZero(a: nat)
    ensures And(a, 0) == 0
  {
    if a != 0 {
      AndZero(a / 2);
    }
  }

  /** Masking with n one-bits keeps a value below 2^n. */
  lemma {:induction false} AndOnes(a: nat, n: nat)
    requires a < Pow2(n)
    ensures And(a, Pow2(n) - 1) == a
    decreases n
  {
    if n > 0 {
      AndOnes(a / 2, n - 1);
      assert (Pow2(n) - 1) / 2 == Pow2(n - 1) - 1;
    }
  }
}
