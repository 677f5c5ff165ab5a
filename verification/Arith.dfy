/** Addition and subtraction of integer vectors with overflow detection, from `cgo/arith.c`. */
module Arith {
  import opened BitOps
  import opened Bitmap
  import opened Operands

  const RC_SUCCESS := 0
  const RC_OUT_OF_RANGE := 20201
  const RC_INVALID_ARGUMENT := 20203

  datatype Kind = SignedAdd | SignedSub | UnsignedAdd | UnsignedSub {
    predicate Signed() {
      SignedAdd? || SignedSub?
    }

    /** The result without a limit on its size. */
    function Exact(x: int, y: int): int {
      if SignedAdd? || UnsignedAdd? then x + y else x - y
    }
  }

  /** The values of a machine type of so many bits. */
  predicate Fits(signed: bool, bits: nat, x: int)
    requires bits > 0
  {
    if signed then 0 - Pow2(bits - 1) <= x < Pow2(bits - 1) else 0 <= x < Pow2(bits)
  }

  /** Wrap-around to a machine type. */
  function Wrap(signed: bool, bits: nat, x: int): int
    requires bits > 0
  {
    if signed then (x + Pow2(bits - 1)) % Pow2(bits) - Pow2(bits - 1) else x % Pow2(bits)
  }

  /** One row: the stored result, and the flag that is carried from row to row. */
  function Flag(kind: Kind, opflag: int, x: int, y: int, t: int): int {
    match kind
    case SignedAdd => Or(opflag, And(Xor(t, x), Xor(t, y)))
    case SignedSub => Or(opflag, And(Xor(x, y), Xor(t, x)))
    case UnsignedAdd => if t < x then 1 else opflag
    case UnsignedSub => if x < y then 1 else opflag
  }

  /** What is tested after the last row. */
  predicate Raised(kind: Kind, opflag: int) {
    if kind.Signed() then opflag < 0 else opflag != 0
  }

  lemma {:induction false} ModNear(y: int, m: int)
    requires m > 0 && -m <= y < 2 * m
    ensures y % m == if y < 0 then y + m else if y < m then y else y - m
  {}

  lemma {:induction false} WrapNear(kind: Kind, bits: nat, x: int, y: int)
    requires bits > 0 && Fits(kind.Signed(), bits, x) && Fits(kind.Signed(), bits, y)
    ensures var e, t := kind.Exact(x, y), Wrap(kind.Signed(), bits, kind.Exact(x, y));
      && Fits(kind.Signed(), bits, t)
      && t == (if Fits(kind.Signed(), bits, e) then e else if e < 0 then e + Pow2(bits) else e - Pow2(bits))
  {
    var half := Pow2(bits - 1);
    assert Pow2(bits) == 2 * half;
    ModNear(if kind.Signed() then kind.Exact(x, y) + half else kind.Exact(x, y), 2 * half);
  }

  /** A row raises the flag exactly when its exact result does not fit, and never lowers it. */
  lemma {:induction false} FlagMeans(kind: Kind, bits: nat, opflag: int, x: int, y: int)
    requires bits > 0 && Fits(kind.Signed(), bits, x) && Fits(kind.Signed(), bits, y)
    ensures var t := Wrap(kind.Signed(), bits, kind.Exact(x, y));
      && (Raised(kind, Flag(kind, opflag, x, y, t)) <==>
            Raised(kind, opflag) || !Fits(kind.Signed(), bits, kind.Exact(x, y)))
      && (Fits(kind.Signed(), bits, kind.Exact(x, y)) ==> t == kind.Exact(x, y))
  {
    var t := Wrap(kind.Signed(), bits, kind.Exact(x, y));
    WrapNear(kind, bits, x, y);
    match kind
    case SignedAdd =>
      XorSign(t, x);
      XorSign(t, y);
      AndSign(Xor(t, x), Xor(t, y));
      OrSign(opflag, And(Xor(t, x), Xor(t, y)));
    case SignedSub =>
      XorSign(x, y);
      XorSign(t, x);
      AndSign(Xor(x, y), Xor(t, x));
      OrSign(opflag, And(Xor(x, y), Xor(t, x)));
    case UnsignedAdd =>
    case UnsignedSub =>
  }

  /** The flag fits the machine type, so that storing it loses no bit. */
  lemma {:induction false} FlagFits(kind: Kind, bits: nat, opflag: int, x: int, y: int)
    requires bits > 0 && Fits(kind.Signed(), bits, x) && Fits(kind.Signed(), bits, y)
    requires Fits(kind.Signed(), bits, opflag)
    ensures Fits(kind.Signed(), bits, Flag(kind, opflag, x, y, Wrap(kind.Signed(), bits, kind.Exact(x, y))))
  {
    var t, n := Wrap(kind.Signed(), bits, kind.Exact(x, y)), bits - 1;
    WrapNear(kind, bits, x, y);
    assert Pow2(bits) == 2 * Pow2(n);
    if kind.Signed() {
      XorWithin(t, x, n);
      XorWithin(t, y, n);
      XorWithin(x, y, n);
      AndWithin(Xor(t, x), Xor(t, y), n);
      AndWithin(Xor(x, y), Xor(t, x), n);
      OrWithin(opflag, And(Xor(t, x), Xor(t, y)), n);
      OrWithin(opflag, And(Xor(x, y), Xor(t, x)), n);
    }
  }

  // ---- Vectors ----

  function Operand(scalar: bool, v: seq<int>, i: nat): int
    requires i < |v| || (scalar && |v| > 0)
  {
    if scalar then v[0] else v[i]
  }

  ghost predicate Sized(mode: Mode, a: seq<int>, b: seq<int>, n: nat) {
    && |a| >= (if mode.LeftScalar? then 1 else n)
    && |b| >= (if mode.RightScalar? then 1 else n)
  }

  function ExactAt(kind: Kind, mode: Mode, a: seq<int>, b: seq<int>, n: nat, i: nat): int
    requires Sized(mode, a, b, n) && i < n
  {
    kind.Exact(Operand(mode.LeftScalar?, a, i), Operand(mode.RightScalar?, b, i))
  }

  /** A scalar operand is the same for all rows, a vector has one for each. */
  lemma {:induction false} ExactAtIs(kind: Kind, mode: Mode, a: seq<int>, b: seq<int>, n: nat, i: nat)
    requires Sized(mode, a, b, n) && i < n
    ensures var minus := kind.SignedSub? || kind.UnsignedSub?;
      ExactAt(kind, mode, a, b, n, i) ==
        match mode
        case Vectors => if minus then a[i] - b[i] else a[i] + b[i]
        case LeftScalar => if minus then a[0] - b[i] else a[0] + b[i]
        case RightScalar => if minus then a[i] - b[0] else a[i] + b[0]
  {}

  /** The result of a row that is not null does not fit. */
  ghost predicate Overflows(kind: Kind, bits: nat, mode: Mode, a: seq<int>, b: seq<int>, n: nat, nulls: array?<Word>,
                            i: nat)
    requires bits > 0 && Sized(mode, a, b, n) && i < n && Covers(nulls, n)
    reads nulls
  {
    !NullAt(nulls, i) && !Fits(kind.Signed(), bits, ExactAt(kind, mode, a, b, n, i))
  }

  ghost predicate SomeOverflow(kind: Kind, bits: nat, mode: Mode, a: seq<int>, b: seq<int>, n: nat,
                               nulls: array?<Word>, i: nat)
    requires bits > 0 && Sized(mode, a, b, n) && i <= n && Covers(nulls, n)
    reads nulls
  {
    exists j: nat :: j < i && Overflows(kind, bits, mode, a, b, n, nulls, j)
  }

  lemma {:induction false} OneMoreRow(kind: Kind, bits: nat, mode: Mode, a: seq<int>, b: seq<int>, n: nat,
                                      nulls: array?<Word>, i: nat)
    requires bits > 0 && Sized(mode, a, b, n) && i < n && Covers(nulls, n)
    ensures SomeOverflow(kind, bits, mode, a, b, n, nulls, i + 1) <==>
      SomeOverflow(kind, bits, mode, a, b, n, nulls, i) || Overflows(kind, bits, mode, a, b, n, nulls, i)
  {}

  ghost predicate AllFit(kind: Kind, bits: nat, v: seq<int>)
    requires bits > 0
  {
    forall i :: 0 <= i < |v| ==> Fits(kind.Signed(), bits, v[i])
  }

  method Row(kind: Kind, bits: nat, opflag: int, x: int, y: int) returns (t: int, opflag': int)
    requires bits > 0 && Fits(kind.Signed(), bits, x) && Fits(kind.Signed(), bits, y)
    requires Fits(kind.Signed(), bits, opflag)
    ensures Fits(kind.Signed(), bits, opflag')
    ensures Raised(kind, opflag') <==> Raised(kind, opflag) || !Fits(kind.Signed(), bits, kind.Exact(x, y))
    ensures Fits(kind.Signed(), bits, kind.Exact(x, y)) ==> t == kind.Exact(x, y)
  {
    t := Wrap(kind.Signed(), bits, kind.Exact(x, y));
    opflag' := Flag(kind, opflag, x, y, t);
    FlagMeans(kind, bits, opflag, x, y);
    FlagFits(kind, bits, opflag, x, y);
  }

  /** One round of the loop, which leaves a null row alone. */
  method VecRow(kind: Kind, bits: nat, rt: array<int>, a: seq<int>, b: seq<int>, n: nat, nulls: array?<Word>,
                mode: Mode,
                opflag: int, i: nat)
    returns (opflag': int)
    requires bits > 0 && i < n <= rt.Length && Sized(mode, a, b, n) && Covers(nulls, n)
    requires AllFit(kind, bits, a) && AllFit(kind, bits, b) && Fits(kind.Signed(), bits, opflag)
    modifies rt
    ensures Fits(kind.Signed(), bits, opflag')
    ensures Raised(kind, opflag') <==> Raised(kind, opflag) || Overflows(kind, bits, mode, a, b, n, nulls, i)
    ensures !Raised(kind, opflag') && !NullAt(nulls, i) ==> rt[i] == ExactAt(kind, mode, a, b, n, i)
    ensures NullAt(nulls, i) ==> rt[i] == old(rt[i])
    ensures forall j :: 0 <= j < rt.Length && j != i ==> rt[j] == old(rt[j])
  {
    opflag' := opflag;
    var isNull := false;
    if nulls != null {
      isNull := Contains(nulls, i);
    }
    if !isNull {
      var x, y := Operand(mode.LeftScalar?, a, i), Operand(mode.RightScalar?, b, i);
      var t;
      t, opflag' := Row(kind, bits, opflag, x, y);
      rt[i] := t;
    }
  }

  /** Fails exactly when the result of some row that is not null does not fit; otherwise all these rows
      hold exact results. Null rows are not touched. */
  method VecOp(kind: Kind, bits: nat, rt: array<int>, a: seq<int>, b: seq<int>, n: nat, nulls: array?<Word>, flag: int)
    returns (rc: int)
    requires bits > 0 && n <= rt.Length && Sized(ModeOf(flag), a, b, n) && Covers(nulls, n)
    requires AllFit(kind, bits, a) && AllFit(kind, bits, b)
    modifies rt
    ensures rc == if SomeOverflow(kind, bits, ModeOf(flag), a, b, n, nulls, n) then RC_OUT_OF_RANGE else RC_SUCCESS
    ensures rc == RC_SUCCESS ==>
      forall i: nat :: i < n && !NullAt(nulls, i) ==> rt[i] == ExactAt(kind, ModeOf(flag), a, b, n, i)
    ensures forall i: nat :: i < n && NullAt(nulls, i) ==> rt[i] == old(rt[i])
    ensures rt[n..] == old(rt[n..])
  {
    var mode := ModeOf(flag);
    var opflag := 0;
    for i := 0 to n
      invariant Fits(kind.Signed(), bits, opflag)
      invariant Raised(kind, opflag) <==> SomeOverflow(kind, bits, mode, a, b, n, nulls, i)
      invariant !Raised(kind, opflag) ==>
        forall j: nat :: j < i && !NullAt(nulls, j) ==> rt[j] == ExactAt(kind, mode, a, b, n, j)
      invariant forall j: nat :: j < i && NullAt(nulls, j) ==> rt[j] == old(rt[j])
      invariant forall j :: i <= j < rt.Length ==> rt[j] == old(rt[j])
    {
      OneMoreRow(kind, bits, mode, a, b, n, nulls, i);
      opflag := VecRow(kind, bits, rt, a, b, n, nulls, mode, opflag, i);
    }
    rc := if Raised(kind, opflag) then RC_OUT_OF_RANGE else RC_SUCCESS;
  }

  /** The entry points, by the size of the machine type in bytes. */
  method Vec(kind: Kind, szof: int, rt: array<int>, a: seq<int>, b: seq<int>, n: nat, nulls: array?<Word>, flag: int)
    returns (rc: int)
    requires n <= rt.Length && Sized(ModeOf(flag), a, b, n) && Covers(nulls, n)
    requires szof in {1, 2, 4, 8} ==> AllFit(kind, 8 * szof, a) && AllFit(kind, 8 * szof, b)
    modifies rt
    ensures szof !in {1, 2, 4, 8} ==> rc == RC_INVALID_ARGUMENT && rt[..] == old(rt[..])
    ensures szof in {1, 2, 4, 8} ==>
      rc == if SomeOverflow(kind, 8 * szof, ModeOf(flag), a, b, n, nulls, n) then RC_OUT_OF_RANGE else RC_SUCCESS
    ensures rc == RC_SUCCESS ==>
      forall i: nat :: i < n && !NullAt(nulls, i) ==> rt[i] == ExactAt(kind, ModeOf(flag), a, b, n, i)
    ensures forall i: nat :: i < n && NullAt(nulls, i) ==> rt[i] == old(rt[i])
    ensures rt[n..] == old(rt[n..])
  {
    if szof == 1 {
      rc := VecOp(kind, 8, rt, a, b, n, nulls, flag);
    } else if szof == 2 {
      rc := VecOp(kind, 16, rt, a, b, n, nulls, flag);
    } else if szof == 4 {
      rc := VecOp(kind, 32, rt, a, b, n, nulls, flag);
    } else if szof == 8 {
      rc := VecOp(kind, 64, rt, a, b, n, nulls, flag);
    } else {
      rc := RC_INVALID_ARGUMENT;
    }
  }
}
