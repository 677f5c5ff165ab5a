/** Facts about multiples and remainders that the solver needs to be told. */
module Arithmetic {

  /** k * size, by repeated addition. */
  function At(size: nat, k: nat): nat {
    if k == 0 then 0 else At(size, k - 1) + size
  }

  lemma {:induction false} AtIsProduct(size: nat, k: nat)
    ensures At(size, k) == k * size
  {
    if k > 0 {
      AtIsProduct(size, k - 1);
      assert k * size == (k - 1) * size + size;
    }
  }

  lemma {:induction false} AtMonotone(size: nat, a: nat, b: nat)
    ensures a <= b ==> At(size, a) <= At(size, b)
    decreases b
  {
    if a < b {
      AtMonotone(size, a, b - 1);
    }
  }

  lemma {:induction false} DivModUnique(x: nat, q: nat, r: nat, size: nat)
    requires r < size && x == q * size + r
    ensures x / size == q && x % size == r
  {
    var q', r' := x / size, x % size;
    assert x == q' * size + r';
    AtIsProduct(size, q');
    AtIsProduct(size, q);
    AtMonotone(size, q' + 1, q);
    AtMonotone(size, q + 1, q');
  }

  lemma {:induction false} ModStep(x: nat, m: nat)
    requires x >= m > 0
    ensures x % m == (x - m) % m
  {
    var q, r := (x - m) / m, (x - m) % m;
    assert x - m == q * m + r;
    assert x == (q + 1) * m + r;
    DivModUnique(x, q + 1, r, m);
  }

  lemma {:induction false} ModSmall(x: nat, m: nat)
    requires x < m
    ensures x % m == x
  {}
}

/** Bytes and little-endian numbers. */
module Bytes {

  type byte = b: int | 0 <= b < 256

  function Pow256(k: nat): nat {
    if k == 0 then 1 else 256 * Pow256(k - 1)
  }

  /** The low k bytes of n, least significant first. */
  function Le(n: nat, k: nat): (s: seq<byte>)
    ensures |s| == k
  {
    if k == 0 then [] else [n % 256] + Le(n / 256, k - 1)
  }

  function FromLe(s: seq<byte>): nat {
    if s == [] then 0 else s[0] + 256 * FromLe(s[1..])
  }

  /** Writing a number that fits and reading it back gives the number. */
  lemma {:induction false} LeRoundTrip(n: nat, k: nat)
    requires n < Pow256(k)
    ensures FromLe(Le(n, k)) == n
  {
    if k > 0 {
      assert n / 256 < Pow256(k - 1);
      LeRoundTrip(n / 256, k - 1);
      assert Le(n, k)[1..] == Le(n / 256, k - 1);
    }
  }

  /** The number in three bytes, least significant first. */
  function Three(low: int, middle: int, high: int): int {
    low + 256 * middle + 65536 * high
  }

  function Min(a: int, b: int): int {
    if a <= b then a else b
  }

  lemma {:induction false} SameTail<T>(a: seq<T>, b: seq<T>, c: seq<T>)
    requires a + b == a + c
    ensures b == c
  {
    assert b == (a + b)[|a|..];
    assert c == (a + c)[|a|..];
  }

  lemma {:induction false} Assoc(a: seq<byte>, b: seq<byte>, c: seq<byte>)
    ensures a + (b + c) == (a + b) + c
  {}

  function Concat(ss: seq<seq<byte>>): seq<byte> {
    if ss == [] then [] else ss[0] + Concat(ss[1..])
  }

  lemma {:induction false} ConcatAppend(a: seq<seq<byte>>, b: seq<seq<byte>>)
    ensures Concat(a + b) == Concat(a) + Concat(b)
  {
    if a == [] {
      assert a + b == b;
    } else {
      ConcatAppend(a[1..], b);
      assert (a + b)[1..] == a[1..] + b;
      Assoc(a[0], Concat(a[1..]), Concat(b));
    }
  }
}
