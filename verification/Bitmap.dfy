/** Bitmaps of `cgo/bitmap.h`: arrays of 64-bit words as sets of positions. */
module Bitmap {
  import opened BitOps

  const TWO64 := 0x1_0000_0000_0000_0000

  type Word = x: int | 0 <= x < TWO64

  /** Whether a position is in the set. */
  predicate Test(p: seq<Word>, pos: nat)
    requires pos < 64 * |p|
  {
    Bit(p[pos / 64], pos % 64)
  }

  /** Position 64 * i + k is bit k of word i, counted from the least significant one. */
  lemma {:induction false} TestIs(p: seq<Word>, i: nat, k: nat)
    requires i < |p| && k < 64
    ensures Test(p, 64 * i + k) <==> p[i] / Pow2(k) % 2 == 1
  {
    assert (64 * i + k) / 64 == i && (64 * i + k) % 64 == k;
    BitIs(p[i], k);
  }

  function WordCount(nbits: nat): nat {
    (nbits + 63) / 64
  }

  // ---- Words ----

  lemma {:induction false} WordWidth()
    ensures Pow2(64) == TWO64
  {
    assert Pow2(8) == 0x100;
    assert Pow2(16) == 0x1_0000;
    assert Pow2(24) == 0x100_0000;
    assert Pow2(32) == 0x1_0000_0000;
    assert Pow2(40) == 0x100_0000_0000;
    assert Pow2(48) == 0x1_0000_0000_0000;
    assert Pow2(56) == 0x100_0000_0000_0000;
  }

  lemma {:induction false} PowGrows(j: nat, k: nat)
    requires j <= k
    ensures Pow2(j) <= Pow2(k)
    decreases k
  {
    if j < k {
      PowGrows(j, k - 1);
    }
  }

  function WordAnd(a: Word, b: Word): Word {
    WordWidth();
    AndWithin(a, b, 64);
    AndSign(a, b);
    And(a, b)
  }

  function WordOr(a: Word, b: Word): Word {
    WordWidth();
    OrWithin(a, b, 64);
    OrSign(a, b);
    Or(a, b)
  }

  function WordNot(a: Word): Word {
    TWO64 - 1 - a
  }

  /** The mask of a position inside its word. */
  function Mask(k: nat): Word
    requires k < 64
  {
    WordWidth();
    PowGrows(k + 1, 64);
    Pow2(k)
  }

  /** The mask of the bits of the last word: the mask of its last bit, doubled, less one, both modulo 2^64. */
  function LastMask(nbits: nat): Word
    requires nbits > 0
  {
    (2 * Mask((nbits - 1) % 64) % TWO64 + TWO64 - 1) % TWO64
  }

  /** It is the mask of all bits up to the last one, also where doubling overflows. */
  lemma {:induction false} LastMaskIs(nbits: nat)
    requires nbits > 0
    ensures LastMask(nbits) == Pow2((nbits - 1) % 64 + 1) - 1
  {
    var off := (nbits - 1) % 64;
    WordWidth();
    PowGrows(off + 1, 64);
    assert 2 * Mask(off) == Pow2(off + 1);
    LessOne(2 * Mask(off));
  }

  lemma {:induction false} LessOne(m: int)
    requires 1 <= m <= TWO64
    ensures (m % TWO64 + TWO64 - 1) % TWO64 == m - 1
  {}

  lemma {:induction false} MaskedBit(w: Word, nbits: nat, k: nat)
    requires nbits > 0 && k < 64
    ensures Bit(WordAnd(w, LastMask(nbits)), k) <==> Bit(w, k) && k <= (nbits - 1) % 64
  {
    LastMaskIs(nbits);
    BitAnd(w, LastMask(nbits), k);
    BitsBelow((nbits - 1) % 64 + 1, k);
  }

  lemma {:induction false} SomeBit(w: Word) returns (k: nat)
    requires w != 0
    ensures k < 64 && Bit(w, k)
  {
    if forall j :: 0 <= j < 64 ==> !Bit(w, j) {
      WordWidth();
      NoBits(w, 64);
    }
    k :| 0 <= k < 64 && Bit(w, k);
  }

  /** The masked word is zero exactly when the bit is not set. */
  lemma {:induction false} MaskTests(w: Word, k: nat)
    requires k < 64
    ensures WordAnd(w, Mask(k)) != 0 <==> Bit(w, k)
  {
    var m := WordAnd(w, Mask(k));
    BitAnd(w, Mask(k), k);
    BitOfMask(k, k);
    BitOfZero(k);
    if m != 0 {
      var j := SomeBit(m);
      BitAnd(w, Mask(k), j);
      BitOfMask(k, j);
    }
  }

  // ---- Operations ----

  method Contains(p: array<Word>, pos: nat) returns (r: bool)
    requires pos < 64 * p.Length
    ensures r <==> Test(p[..], pos)
  {
    MaskTests(p[pos / 64], pos % 64);
    r := WordAnd(p[pos / 64], Mask(pos % 64)) != 0;
  }

  method Set(p: array<Word>, pos: nat)
    requires pos < 64 * p.Length
    modifies p
    ensures forall q :: 0 <= q < 64 * p.Length ==> (Test(p[..], q) <==> Test(old(p[..]), q) || q == pos)
  {
    p[pos / 64] := WordOr(p[pos / 64], Mask(pos % 64));
    forall q | 0 <= q < 64 * p.Length
      ensures Test(p[..], q) <==> Test(old(p[..]), q) || q == pos
    {
      BitOr(old(p[pos / 64]), Mask(pos % 64), q % 64);
      BitOfMask(pos % 64, q % 64);
    }
  }

  method Clear(p: array<Word>, pos: nat)
    requires pos < 64 * p.Length
    modifies p
    ensures forall q :: 0 <= q < 64 * p.Length ==> (Test(p[..], q) <==> Test(old(p[..]), q) && q != pos)
  {
    var mask := Mask(pos % 64);
    p[pos / 64] := WordAnd(p[pos / 64], WordNot(mask));
    forall q | 0 <= q < 64 * p.Length
      ensures Test(p[..], q) <==> Test(old(p[..]), q) && q != pos
    {
      BitAnd(old(p[pos / 64]), WordNot(mask), q % 64);
      WordWidth();
      BitComplement(mask, 64, q % 64);
      BitOfMask(pos % 64, q % 64);
    }
  }

  /** The words of the operands may be those of the result. */
  method AndAll(dst: array<Word>, a: array<Word>, b: array<Word>, nbits: nat)
    requires WordCount(nbits) <= dst.Length && WordCount(nbits) <= a.Length && WordCount(nbits) <= b.Length
    modifies dst
    ensures forall q :: 0 <= q < nbits ==> (Test(dst[..], q) <==> Test(old(a[..]), q) && Test(old(b[..]), q))
    ensures dst[WordCount(nbits)..] == old(dst[WordCount(nbits)..])
  {
    var size := WordCount(nbits);
    for i := 0 to size
      invariant forall j :: 0 <= j < i ==> dst[j] == WordAnd(old(a[j]), old(b[j]))
      invariant forall j :: i <= j < dst.Length ==> dst[j] == old(dst[j])
      invariant forall j :: i <= j < a.Length ==> a[j] == old(a[j])
      invariant forall j :: i <= j < b.Length ==> b[j] == old(b[j])
    {
      dst[i] := WordAnd(a[i], b[i]);
    }
    forall q | 0 <= q < nbits
      ensures Test(dst[..], q) <==> Test(old(a[..]), q) && Test(old(b[..]), q)
    {
      BitAnd(old(a[q / 64]), old(b[q / 64]), q % 64);
    }
  }

  method OrAll(dst: array<Word>, a: array<Word>, b: array<Word>, nbits: nat)
    requires WordCount(nbits) <= dst.Length && WordCount(nbits) <= a.Length && WordCount(nbits) <= b.Length
    modifies dst
    ensures forall q :: 0 <= q < nbits ==> (Test(dst[..], q) <==> Test(old(a[..]), q) || Test(old(b[..]), q))
    ensures dst[WordCount(nbits)..] == old(dst[WordCount(nbits)..])
  {
    var size := WordCount(nbits);
    for i := 0 to size
      invariant forall j :: 0 <= j < i ==> dst[j] == WordOr(old(a[j]), old(b[j]))
      invariant forall j :: i <= j < dst.Length ==> dst[j] == old(dst[j])
      invariant forall j :: i <= j < a.Length ==> a[j] == old(a[j])
      invariant forall j :: i <= j < b.Length ==> b[j] == old(b[j])
    {
      dst[i] := WordOr(a[i], b[i]);
    }
    forall q | 0 <= q < nbits
      ensures Test(dst[..], q) <==> Test(old(a[..]), q) || Test(old(b[..]), q)
    {
      BitOr(old(a[q / 64]), old(b[q / 64]), q % 64);
    }
  }

  method NotAll(dst: array<Word>, a: array<Word>, nbits: nat)
    requires WordCount(nbits) <= dst.Length && WordCount(nbits) <= a.Length
    modifies dst
    ensures forall q :: 0 <= q < nbits ==> (Test(dst[..], q) <==> !Test(old(a[..]), q))
    ensures dst[WordCount(nbits)..] == old(dst[WordCount(nbits)..])
  {
    var size := WordCount(nbits);
    for i := 0 to size
      invariant forall j :: 0 <= j < i ==> dst[j] == WordNot(old(a[j]))
      invariant forall j :: i <= j < dst.Length ==> dst[j] == old(dst[j])
      invariant forall j :: i <= j < a.Length ==> a[j] == old(a[j])
    {
      dst[i] := WordNot(a[i]);
    }
    forall q | 0 <= q < nbits
      ensures Test(dst[..], q) <==> !Test(old(a[..]), q)
    {
      WordWidth();
      BitComplement(old(a[q / 64]), 64, q % 64);
    }
  }

  // ---- Counting ----

  /** How many of the first k bits of a word are set. */
  function CountUp(w: Word, k: nat): nat {
    if k == 0 then 0 else CountUp(w, k - 1) + (if Bit(w, k - 1) then 1 else 0)
  }

  function Popcount(w: Word): nat {
    CountUp(w, 64)
  }

  /** The positions below n that are set. */
  ghost function Members(p: seq<Word>, n: nat): set<nat>
    requires n <= 64 * |p|
  {
    set q: nat | q < n && Test(p, q)
  }

  lemma {:induction false} MembersGrow(p: seq<Word>, n: nat)
    requires n < 64 * |p|
    ensures |Members(p, n + 1)| == |Members(p, n)| + (if Test(p, n) then 1 else 0)
  {
    var now, next := Members(p, n), Members(p, n + 1);
    assert n !in now && forall q: nat :: q in next <==> q in now || (q == n && Test(p, n));
    if Test(p, n) {
      assert next == now + {n};
    } else {
      assert next == now;
    }
  }

  /** The members of a word behind those of the words before it. */
  lemma {:induction false} MembersWord(p: seq<Word>, i: nat, k: nat)
    requires i < |p| && k <= 64
    ensures |Members(p, 64 * i + k)| == |Members(p, 64 * i)| + CountUp(p[i], k)
    decreases k
  {
    if k > 0 {
      MembersWord(p, i, k - 1);
      MembersGrow(p, 64 * i + (k - 1));
      assert (64 * i + (k - 1)) / 64 == i && (64 * i + (k - 1)) % 64 == k - 1;
    }
  }

  lemma {:induction false} MaskedCount(w: Word, nbits: nat, k: nat)
    requires nbits > 0 && k <= 64
    ensures CountUp(WordAnd(w, LastMask(nbits)), k) ==
      CountUp(w, if k <= (nbits - 1) % 64 then k else (nbits - 1) % 64 + 1)
    decreases k
  {
    if k > 0 {
      MaskedBit(w, nbits, k - 1);
      MaskedCount(w, nbits, k - 1);
    }
  }

  method Count(p: array<Word>, nbits: nat) returns (cnt: nat)
    requires WordCount(nbits) <= p.Length
    ensures nbits <= 64 * |p[..]| && cnt == |Members(p[..], nbits)|
  {
    if nbits == 0 {
      return 0;
    }
    var size := WordCount(nbits);
    ghost var off := (nbits - 1) % 64;
    cnt := Popcount(WordAnd(p[size - 1], LastMask(nbits)));
    MaskedCount(p[size - 1], nbits, 64);
    for i := 0 to size - 1
      invariant cnt == CountUp(p[size - 1], off + 1) + |Members(p[..], 64 * i)|
    {
      MembersWord(p[..], i, 64);
      cnt := cnt + Popcount(p[i]);
    }
    MembersWord(p[..], size - 1, off + 1);
    assert 64 * (size - 1) + (off + 1) == nbits;
  }

  method Empty(p: array<Word>, nbits: nat) returns (r: bool)
    requires WordCount(nbits) <= p.Length
    ensures nbits <= 64 * |p[..]| && (r <==> Members(p[..], nbits) == {})
  {
    if nbits == 0 {
      return true;
    }
    var size := WordCount(nbits);
    LastEmpty(p[..], nbits);
    if WordAnd(p[size - 1], LastMask(nbits)) != 0 {
      return false;
    }
    for i := 0 to size - 1
      invariant forall j :: 0 <= j < i ==> p[j] == 0
    {
      WordEmpty(p[..], nbits, i);
      if p[i] != 0 {
        return false;
      }
    }
    NoMembers(p[..], nbits);
    return true;
  }

  lemma {:induction false} LastEmpty(p: seq<Word>, nbits: nat)
    requires 0 < nbits <= 64 * |p|
    ensures WordAnd(p[WordCount(nbits) - 1], LastMask(nbits)) != 0 ==> Members(p, nbits) != {}
  {
    var i := WordCount(nbits) - 1;
    var w := WordAnd(p[i], LastMask(nbits));
    if w != 0 {
      var k := SomeBit(w);
      MaskedBit(p[i], nbits, k);
      assert (64 * i + k) / 64 == i && (64 * i + k) % 64 == k;
      assert 64 * i + k in Members(p, nbits);
    }
  }

  lemma {:induction false} WordEmpty(p: seq<Word>, nbits: nat, i: nat)
    requires nbits <= 64 * |p| && 64 * (i + 1) <= nbits
    ensures p[i] != 0 ==> Members(p, nbits) != {}
  {
    if p[i] != 0 {
      var k := SomeBit(p[i]);
      assert (64 * i + k) / 64 == i && (64 * i + k) % 64 == k;
      assert 64 * i + k in Members(p, nbits);
    }
  }

  lemma {:induction false} NoMembers(p: seq<Word>, nbits: nat)
    requires 0 < nbits <= 64 * |p| && WordAnd(p[WordCount(nbits) - 1], LastMask(nbits)) == 0
    requires forall j :: 0 <= j < WordCount(nbits) - 1 ==> p[j] == 0
    ensures Members(p, nbits) == {}
  {
    forall q: nat | q < nbits
      ensures !Test(p, q)
    {
      BitOfZero(q % 64);
      if q / 64 == WordCount(nbits) - 1 {
        MaskedBit(p[q / 64], nbits, q % 64);
      } else {
        assert p[q / 64] == 0;
      }
    }
  }
}
