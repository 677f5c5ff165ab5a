/** What the vector functions of `cgo` share: null bitmaps that may be missing, and scalar operands. */
module Operands {
  import opened BitOps
  import opened Bitmap

  /** Whether a row is null; no bitmap means that none is. */
  predicate NullAt(nulls: array?<Word>, i: nat)
    requires nulls != null ==> i < 64 * nulls.Length
    reads nulls
  {
    nulls != null && Test(nulls[..], i)
  }

  ghost predicate Covers(nulls: array?<Word>, n: nat) {
    nulls != null ==> n <= 64 * nulls.Length
  }

  const LEFT_IS_SCALAR := 1
  const RIGHT_IS_SCALAR := 2

  datatype Mode = LeftScalar | RightScalar | Vectors

  /** Which operand is a scalar; the flag of the left one is looked at first. */
  function ModeOf(flag: int): Mode {
    if And(flag, LEFT_IS_SCALAR) != 0 then LeftScalar
    else if And(flag, RIGHT_IS_SCALAR) != 0 then RightScalar
    else Vectors
  }

  /** The lowest bit of the flags makes the left operand a scalar, the next one the right operand. */
  lemma {:induction false} ModeOfFlags(flag: int)
    ensures ModeOf(flag) ==
      if flag % 2 == 1 then LeftScalar else if flag / 2 % 2 == 1 then RightScalar else Vectors
  {
    LowBit(flag);
    LowBit(flag / 2);
    assert And(flag, 2) == 2 * And(flag / 2, 1) + 0;
  }

  lemma {:induction false} LowBit(x: int)
    ensures And(x, 1) == x % 2
  {
    AndZero(x / 2);
  }

  lemma {:induction false} AndZero(x: int)
    ensures And(x, 0) == 0
    decreases Size(x)
  {
    if Size(x) != 0 {
      AndZero(x / 2);
    }
  }
}

/** Three-valued AND and OR over vectors, from `cgo/logic.c`. */
module Logic {
  import opened Bitmap
  import opened Operands

  datatype Tri = Yes | No | Null

  function AndTable(x: Tri, y: Tri): Tri {
    if x == No || y == No then No else if x == Yes && y == Yes then Yes else Null
  }

  function OrTable(x: Tri, y: Tri): Tri {
    if x == Yes || y == Yes then Yes else if x == No && y == No then No else Null
  }

  function AsTri(value: bool, isNull: bool): Tri {
    if isNull then Null else if value then Yes else No
  }

  /** The truth value is one that the operand may stand for; a null may stand for both. */
  ghost predicate May(scalar: bool, v: seq<bool>, nulls: array?<Word>, i: nat, u: bool)
    requires i < |v| || (scalar && |v| > 0)
    requires nulls != null ==> i < 64 * nulls.Length
    reads nulls
  {
    if scalar then u == v[0] else NullAt(nulls, i) || u == v[i]
  }

  /** Whatever truth values the operands of row i stand for, their AND, or OR, is `want`. */
  ghost predicate Forced(either: bool, want: bool, mode: Mode, a: seq<bool>, b: seq<bool>, n: nat, i: nat,
                         anulls: array?<Word>, bnulls: array?<Word>)
    requires Sized(mode, a, b, n) && i < n && Covers(anulls, n) && Covers(bnulls, n)
    reads anulls, bnulls
  {
    forall u, v :: May(mode.LeftScalar?, a, anulls, i, u) && May(mode.RightScalar?, b, bnulls, i, v) ==>
      (if either then u || v else u && v) == want
  }

  /** The row is true, or false, exactly where that is forced, and null otherwise. */
  ghost predicate Decided(either: bool, value: bool, isNull: bool, mode: Mode, a: seq<bool>, b: seq<bool>,
                          n: nat, i: nat, anulls: array?<Word>, bnulls: array?<Word>)
    requires Sized(mode, a, b, n) && i < n && Covers(anulls, n) && Covers(bnulls, n)
    reads anulls, bnulls
  {
    && (!isNull && value <==> Forced(either, true, mode, a, b, n, i, anulls, bnulls))
    && (!isNull && !value <==> Forced(either, false, mode, a, b, n, i, anulls, bnulls))
  }

  /** A result of the table is what the operands force. */
  lemma {:induction false} TableDecides(either: bool, value: bool, isNull: bool, mode: Mode, a: seq<bool>, b: seq<bool>,
                                        n: nat, i: nat, anulls: array?<Word>, bnulls: array?<Word>)
    requires Sized(mode, a, b, n) && i < n && Covers(anulls, n) && Covers(bnulls, n)
    requires either ==> AsTri(value, isNull) == OrTable(Left(mode, a, anulls, i), Right(mode, b, bnulls, i))
    requires !either ==> AsTri(value, isNull) == AndTable(Left(mode, a, anulls, i), Right(mode, b, bnulls, i))
    ensures Decided(either, value, isNull, mode, a, b, n, i, anulls, bnulls)
  {
    var u0 := if mode.LeftScalar? then a[0] else a[i];
    var v0 := if mode.RightScalar? then b[0] else b[i];
    assert May(mode.LeftScalar?, a, anulls, i, u0) && May(mode.RightScalar?, b, bnulls, i, v0);
    if Left(mode, a, anulls, i) == Null {
      assert May(mode.LeftScalar?, a, anulls, i, true) && May(mode.LeftScalar?, a, anulls, i, false);
    }
    if Right(mode, b, bnulls, i) == Null {
      assert May(mode.RightScalar?, b, bnulls, i, true) && May(mode.RightScalar?, b, bnulls, i, false);
    }
  }

  ghost predicate Sized(mode: Mode, a: seq<bool>, b: seq<bool>, n: nat) {
    && |a| >= (if mode.LeftScalar? then 1 else n)
    && |b| >= (if mode.RightScalar? then 1 else n)
  }

  /** The operands' values of a row; a scalar is not null. */
  function Left(mode: Mode, a: seq<bool>, anulls: array?<Word>, i: nat): Tri
    requires i < |a| || (mode.LeftScalar? && |a| > 0)
    requires anulls != null ==> i < 64 * anulls.Length
    reads anulls
  {
    if mode.LeftScalar? then AsTri(a[0], false) else AsTri(a[i], NullAt(anulls, i))
  }

  function Right(mode: Mode, b: seq<bool>, bnulls: array?<Word>, i: nat): Tri
    requires i < |b| || (mode.RightScalar? && |b| > 0)
    requires bnulls != null ==> i < 64 * bnulls.Length
    reads bnulls
  {
    if mode.RightScalar? then AsTri(b[0], false) else AsTri(b[i], NullAt(bnulls, i))
  }

  /** Clears all of the first n positions. */
  method RemoveAll(nulls: array<Word>, n: nat)
    requires n <= 64 * nulls.Length
    modifies nulls
    ensures forall q :: 0 <= q < 64 * nulls.Length ==> (Test(nulls[..], q) <==> Test(old(nulls[..]), q) && q >= n)
  {
    for i := 0 to n
      invariant forall q :: 0 <= q < 64 * nulls.Length ==> (Test(nulls[..], q) <==> Test(old(nulls[..]), q) && q >= i)
    {
      var isNull := Contains(nulls, i);
      if isNull {
        Clear(nulls, i);
      }
    }
  }

  /** The row is settled although it has a null: the other operand has the deciding value. */
  ghost predicate Settled(deciding: bool, x: Tri, y: Tri) {
    var d := AsTri(deciding, false);
    (x == Null && y == d) || (y == Null && x == d)
  }

  /** Clears the null bits of settled rows. */
  method Settle(deciding: bool, a: seq<bool>, b: seq<bool>, n: nat, anulls: array?<Word>, bnulls: array?<Word>,
                rnulls: array?<Word>)
    requires n <= |a| && n <= |b| && Covers(anulls, n) && Covers(bnulls, n) && Covers(rnulls, n)
    requires rnulls != null ==> rnulls != anulls && rnulls != bnulls
    requires forall i :: 0 <= i < n ==> (NullAt(rnulls, i) <==> NullAt(anulls, i) || NullAt(bnulls, i))
    modifies rnulls
    ensures forall i :: 0 <= i < n ==>
      (NullAt(rnulls, i) <==>
        old(NullAt(rnulls, i)) && !Settled(deciding, AsTri(a[i], NullAt(anulls, i)), AsTri(b[i], NullAt(bnulls, i))))
    ensures rnulls != null ==>
      forall q :: n <= q < 64 * rnulls.Length ==> (Test(rnulls[..], q) <==> Test(old(rnulls[..]), q))
  {
    for i := 0 to n
      invariant forall j :: 0 <= j < i ==>
        (NullAt(rnulls, j) <==>
          old(NullAt(rnulls, j)) && !Settled(deciding, AsTri(a[j], NullAt(anulls, j)), AsTri(b[j], NullAt(bnulls, j))))
      invariant rnulls != null ==>
        forall q :: i <= q < 64 * rnulls.Length ==> (Test(rnulls[..], q) <==> Test(old(rnulls[..]), q))
    {
      var aNull, bNull := false, false;
      if anulls != null {
        aNull := Contains(anulls, i);
      }
      if bnulls != null {
        bNull := Contains(bnulls, i);
      }
      assert aNull || bNull ==> old(NullAt(rnulls, i));
      if aNull && !bNull && b[i] == deciding {
        Clear(rnulls, i);
      }
      if bNull && !aNull && a[i] == deciding {
        Clear(rnulls, i);
      }
    }
  }

  method Fill(rt: array<bool>, n: nat, f: int --> bool)
    requires n <= rt.Length && forall i :: 0 <= i < n ==> f.requires(i)
    modifies rt
    ensures forall i :: 0 <= i < n ==> rt[i] == f(i)
    ensures rt[n..] == old(rt[n..])
  {
    for i := 0 to n
      invariant forall j :: 0 <= j < i ==> rt[j] == f(j)
      invariant forall j :: i <= j < rt.Length ==> rt[j] == old(rt[j])
    {
      rt[i] := f(i);
    }
  }

  /** If the result's nulls start as the union of the operands', every row ends as the AND of the operands:
      true or false where it is so for all values that the nulls may stand for, and null otherwise. */
  method VecAnd(rt: array<bool>, a: seq<bool>, b: seq<bool>, n: nat,
                anulls: array?<Word>, bnulls: array?<Word>, rnulls: array?<Word>, flag: int)
    requires n <= rt.Length && Sized(ModeOf(flag), a, b, n)
    requires Covers(anulls, n) && Covers(bnulls, n) && Covers(rnulls, n)
    requires rnulls != null ==> rnulls != anulls && rnulls != bnulls
    requires forall i :: 0 <= i < n ==> (NullAt(rnulls, i) <==>
      Left(ModeOf(flag), a, anulls, i) == Null || Right(ModeOf(flag), b, bnulls, i) == Null)
    modifies rt, rnulls
    ensures forall i :: 0 <= i < n ==>
      Decided(false, rt[i], NullAt(rnulls, i), ModeOf(flag), a, b, n, i, anulls, bnulls)
    ensures rt[n..] == old(rt[n..])
    ensures rnulls != null ==>
      forall q :: n <= q < 64 * rnulls.Length ==> (Test(rnulls[..], q) <==> Test(old(rnulls[..]), q))
  {
    match ModeOf(flag) {
      case LeftScalar =>
        Fill(rt, n, i requires 0 <= i < n => a[0] && b[i]);
        if rnulls != null && !a[0] {
          RemoveAll(rnulls, n);
        }
      case RightScalar =>
        Fill(rt, n, i requires 0 <= i < n => a[i] && b[0]);
        if rnulls != null && !b[0] {
          RemoveAll(rnulls, n);
        }
      case Vectors =>
        Fill(rt, n, i requires 0 <= i < n => a[i] && b[i]);
        Settle(false, a, b, n, anulls, bnulls, rnulls);
    }
    forall i | 0 <= i < n
      ensures Decided(false, rt[i], NullAt(rnulls, i), ModeOf(flag), a, b, n, i, anulls, bnulls)
    {
      TableDecides(false, rt[i], NullAt(rnulls, i), ModeOf(flag), a, b, n, i, anulls, bnulls);
    }
  }

  /** If the result's nulls start as the union of the operands', every row ends as the OR of the operands, in
      the same sense. */
  method VecOr(rt: array<bool>, a: seq<bool>, b: seq<bool>, n: nat,
                anulls: array?<Word>, bnulls: array?<Word>, rnulls: array?<Word>, flag: int)
    requires n <= rt.Length && Sized(ModeOf(flag), a, b, n)
    requires Covers(anulls, n) && Covers(bnulls, n) && Covers(rnulls, n)
    requires rnulls != null ==> rnulls != anulls && rnulls != bnulls
    requires forall i :: 0 <= i < n ==> (NullAt(rnulls, i) <==>
      Left(ModeOf(flag), a, anulls, i) == Null || Right(ModeOf(flag), b, bnulls, i) == Null)
    modifies rt, rnulls
    ensures forall i :: 0 <= i < n ==>
      Decided(true, rt[i], NullAt(rnulls, i), ModeOf(flag), a, b, n, i, anulls, bnulls)
    ensures rt[n..] == old(rt[n..])
    ensures rnulls != null ==>
      forall q :: n <= q < 64 * rnulls.Length ==> (Test(rnulls[..], q) <==> Test(old(rnulls[..]), q))
  {
    match ModeOf(flag) {
      case LeftScalar =>
        Fill(rt, n, i requires 0 <= i < n => a[0] || b[i]);
        if rnulls != null && a[0] {
          RemoveAll(rnulls, n);
        }
      case RightScalar =>
        Fill(rt, n, i requires 0 <= i < n => a[i] || b[0]);
        if rnulls != null && b[0] {
          RemoveAll(rnulls, n);
        }
      case Vectors =>
        Fill(rt, n, i requires 0 <= i < n => a[i] || b[i]);
        Settle(true, a, b, n, anulls, bnulls, rnulls);
    }
    forall i | 0 <= i < n
      ensures Decided(true, rt[i], NullAt(rnulls, i), ModeOf(flag), a, b, n, i, anulls, bnulls)
    {
      TableDecides(true, rt[i], NullAt(rnulls, i), ModeOf(flag), a, b, n, i, anulls, bnulls);
    }
  }
}
