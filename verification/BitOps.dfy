/** Bitwise operations on integers in two's complement, without a limit on the number of bits. */
module BitOps {
  import opened Arithmetic

  function Pow2(n: nat): (r: nat)
    ensures r > 0
  {
    if n == 0 then 1 else 2 * Pow2(n - 1)
  }

  /** Bit k of an integer. */
  predicate Bit(x: int, k: nat)
    decreases k
  {
    if k == 0 then x % 2 == 1 else Bit(x / 2, k - 1)
  }

  /** It is the remainder modulo 2 when k bits are shifted out. */
  lemma {:induction false} BitIs(x: nat, k: nat)
    ensures Bit(x, k) <==> x / Pow2(k) % 2 == 1
    decreases k
  {
    if k > 0 {
      BitIs(x / 2, k - 1);
      HalfThenShift(x, Pow2(k - 1));
    }
  }

  lemma {:induction false} HalfThenShift(x: nat, p: nat)
    requires p > 0
    ensures x / 2 / p == x / (2 * p)
  {
    var h, s := x / 2, x % 2;
    var q, r := h / p, h % p;
    assert h == q * p + r;
    assert q * (2 * p) == 2 * (q * p);
    DivModUnique(x, q, 2 * r + s, 2 * p);
  }

  function Size(x: int): nat {
    if x >= 0 then x else -1 - x
  }

  function Not(x: int): int {
    -1 - x
  }

  function And(x: int, y: int): int
    decreases Size(x) + Size(y)
  {
    if Size(x) == 0 && Size(y) == 0 then (if x == -1 && y == -1 then -1 else 0)
    else 2 * And(x / 2, y / 2) + (if x % 2 == 1 && y % 2 == 1 then 1 else 0)
  }

  function Or(x: int, y: int): int {
    Not(And(Not(x), Not(y)))
  }

  function Xor(x: int, y: int): int {
    And(Or(x, y), Not(And(x, y)))
  }

  lemma {:induction false} BitNot(x: int, k: nat)
    ensures Bit(Not(x), k) <==> !Bit(x, k)
    decreases k
  {
    if k > 0 {
      BitNot(x / 2, k - 1);
      assert Not(x) / 2 == Not(x / 2);
    }
  }

  lemma {:induction false} HalfAnd(x: int, y: int)
    ensures And(x, y) / 2 == And(x / 2, y / 2)
    ensures And(x, y) % 2 == 1 <==> x % 2 == 1 && y % 2 == 1
  {}

  lemma {:induction false} BitAnd(x: int, y: int, k: nat)
    ensures Bit(And(x, y), k) <==> Bit(x, k) && Bit(y, k)
    decreases k
  {
    HalfAnd(x, y);
    if k > 0 {
      BitAnd(x / 2, y / 2, k - 1);
    }
  }

  lemma {:induction false} BitOr(x: int, y: int, k: nat)
    ensures Bit(Or(x, y), k) <==> Bit(x, k) || Bit(y, k)
  {
    BitNot(x, k);
    BitNot(y, k);
    BitAnd(Not(x), Not(y), k);
    BitNot(And(Not(x), Not(y)), k);
  }

  lemma {:induction false} BitXor(x: int, y: int, k: nat)
    ensures Bit(Xor(x, y), k) <==> Bit(x, k) != Bit(y, k)
  {
    BitOr(x, y, k);
    BitAnd(x, y, k);
    BitNot(And(x, y), k);
    BitAnd(Or(x, y), Not(And(x, y)), k);
  }

  // ---- Signs and ranges ----

  /** The sign is the bit above all others. */
  lemma {:induction false} AndSign(x: int, y: int)
    ensures And(x, y) < 0 <==> x < 0 && y < 0
    decreases Size(x) + Size(y)
  {
    if Size(x) != 0 || Size(y) != 0 {
      AndSign(x / 2, y / 2);
    }
  }

  lemma {:induction false} OrSign(x: int, y: int)
    ensures Or(x, y) < 0 <==> x < 0 || y < 0
  {
    AndSign(Not(x), Not(y));
  }

  lemma {:induction false} XorSign(x: int, y: int)
    ensures Xor(x, y) < 0 <==> (x < 0) != (y < 0)
  {
    OrSign(x, y);
    AndSign(x, y);
    AndSign(Or(x, y), Not(And(x, y)));
  }

  ghost predicate Within(x: int, n: nat) {
    0 - Pow2(n) <= x < Pow2(n)
  }

  /** The operations stay within the width of their operands. */
  lemma {:induction false} AndWithin(x: int, y: int, n: nat)
    requires Within(x, n) && Within(y, n)
    ensures Within(And(x, y), n)
    decreases n
  {
    if n > 0 {
      AndWithin(x / 2, y / 2, n - 1);
      HalfAnd(x, y);
    }
  }

  lemma {:induction false} OrWithin(x: int, y: int, n: nat)
    requires Within(x, n) && Within(y, n)
    ensures Within(Or(x, y), n)
  {
    AndWithin(Not(x), Not(y), n);
  }

  lemma {:induction false} XorWithin(x: int, y: int, n: nat)
    requires Within(x, n) && Within(y, n)
    ensures Within(Xor(x, y), n)
  {
    OrWithin(x, y, n);
    AndWithin(x, y, n);
    AndWithin(Or(x, y), Not(And(x, y)), n);
  }

  // ---- Masks ----

  lemma {:induction false} BitOfMask(j: nat, k: nat)
    ensures Bit(Pow2(j), k) <==> j == k
    decreases k
  {
    if j > 0 {
      assert Pow2(j) % 2 == 0 && Pow2(j) / 2 == Pow2(j - 1);
      if k > 0 {
        BitOfMask(j - 1, k - 1);
      }
    } else if k > 0 {
      BitOfZero(k - 1);
    }
  }

  lemma {:induction false} BitOfZero(k: nat)
    ensures !Bit(0, k)
  {
    if k > 0 {
      BitOfZero(k - 1);
    }
  }

  /** The bits below n are those of the mask 2^n - 1. */
  lemma {:induction false} BitsBelow(n: nat, k: nat)
    ensures Bit(Pow2(n) - 1, k) <==> k < n
    decreases k
  {
    if n == 0 {
      BitOfZero(k);
    } else if k > 0 {
      assert (Pow2(n) - 1) / 2 == Pow2(n - 1) - 1;
      BitsBelow(n - 1, k - 1);
    }
  }

  /** A number of n bits, none of which is set, is zero. */
  lemma {:induction false} NoBits(x: nat, n: nat)
    requires x < Pow2(n) && forall k :: 0 <= k < n ==> !Bit(x, k)
    ensures x == 0
    decreases n
  {
    if n > 0 {
      assert !Bit(x, 0);
      forall k | 0 <= k < n - 1
        ensures !Bit(x / 2, k)
      {
        assert !Bit(x, k + 1);
      }
      NoBits(x / 2, n - 1);
    }
  }

  /** Complementing n bits. */
  lemma {:induction false} BitComplement(x: nat, n: nat, k: nat)
    requires x < Pow2(n) && k < n
    ensures Bit(Pow2(n) - 1 - x, k) <==> !Bit(x, k)
    decreases k
  {
    if k > 0 {
      assert (Pow2(n) - 1 - x) / 2 == Pow2(n - 1) - 1 - x / 2;
      BitComplement(x / 2, n - 1, k - 1);
    }
  }
}
