/** What the reference executor's integer operations compute, on all in-range
    operands: not by their formulas but by the exact results they stand for. */
module IntegerMeaning {
  import opened Options
  import opened Words
  import opened Mncs
  import opened IntegerLowering

  /** The widths, moduli and limits of the integer types. */
  lemma WidthsMean(b: IntWidth, n: int)
    ensures BitCount(b) in {8, 16, 32, 64} && IntModulus(b) == Pow2(BitCount(b))
    ensures Minimum(b, true) == -Pow2(BitCount(b) - 1) && Maximum(b, true) == Pow2(BitCount(b) - 1) - 1
    ensures Minimum(b, false) == 0 && Maximum(b, false) == Pow2(BitCount(b)) - 1
    ensures InRange(n, b, true) <==> -Pow2(BitCount(b) - 1) <= n < Pow2(BitCount(b) - 1)
    ensures InRange(n, b, false) <==> 0 <= n < Pow2(BitCount(b))
  {
    Pow2Values();
    hide Pow2;
  }

  /** The literals of each type, and their values. */
  lemma ConstMeans(d: Val, n: int, env: Env)
    ensures var r, p := Evaluate(Const(d, n), env), Pow2(if d.ty.TInt? then BitCount(d.ty.bits) - 1 else 0);
            && (d.ty.TInt? ==> r == if (if d.ty.signed then -p <= n < p else 0 <= n < 2 * p) then Yields(IntV(n)) else Bad)
            && (d.ty.TBool? ==> r == if n == 0 then Yields(BoolV(false)) else if n == 1 then Yields(BoolV(true)) else Bad)
            && (d.ty.TSeq? || d.ty.TView? ==> r == Bad)
  {
    if d.ty.TInt? {
      WidthsMean(d.ty.bits, n);
    }
  }

  predicate Congruent(a: int, b: int, m: int)
    requires m > 0
  {
    (a - b) % m == 0
  }

  lemma SameResidue(a: int, b: int, m: int)
    requires m > 0 && a % m == b % m
    ensures Congruent(a, b, m)
  {
    ModSub(a, b, m);
  }

  lemma WrapMeans(n: int, b: IntWidth, signed: bool)
    ensures InRange(WrapToBits(n, b, signed), b, signed) && Congruent(WrapToBits(n, b, signed), n, IntModulus(b))
  {
    hide Wrap;
    WrapResidue(n, IntModulus(b), signed);
    SameResidue(WrapToBits(n, b, signed), n, IntModulus(b));
  }

  /** The exact result; division truncates. */
  ghost predicate ExactResult(op: IntOp, l: int, r: int, n: int) {
    match op
    case OpAdd => n == l + r
    case OpSub => n == l - r
    case OpMul => n == l * r
    case OpDiv => r != 0 && exists rem :: Truncates(l, r, n, rem)
    case OpMod => r != 0 && exists q :: Truncates(l, r, q, n)
    case _ => false
  }

  predicate IsArithmetic(op: IntOp) { op.OpAdd? || op.OpSub? || op.OpMul? || op.OpDiv? || op.OpMod? }

  lemma DivisionIsExact(op: IntOp, l: int, r: int)
    requires IsDivision(op) && r != 0
    ensures ExactResult(op, l, r, if op.OpDiv? then TruncDiv(l, r) else TruncRem(l, r))
  {
    hide TruncDiv, TruncRem, Truncates;
    TruncMeans(l, r);
  }

  /** Wrapping arithmetic: the in-range number congruent to the exact result, and
      no value for a zero divisor only. */
  lemma WrappingMeans(op: IntOp, b: IntWidth, signed: bool, l: int, r: int, n: int)
    requires InRange(l, b, signed) && InRange(r, b, signed) && IsArithmetic(op)
    ensures EvaluateInteger(op, b, signed, Wrapping, l, r).None? <==> IsDivision(op) && r == 0
    ensures ExactResult(op, l, r, n) ==>
              var v := EvaluateInteger(op, b, signed, Wrapping, l, r);
              v.Some? && InRange(v.value, b, signed) && Congruent(v.value, n, IntModulus(b))
  {
    hide Wrap, TruncDiv, TruncRem, Truncates, ExactResult;
    if IsDivision(op) {
      if ExactResult(op, l, r, n) {
        ExactQuotient(op, l, r, n);
        WrapMeans(n, b, signed);
      }
    } else {
      ExactRaw(op, l, r, n);
      WrappingRing(op, b, signed, l, r);
    }
  }

  lemma WrappingRing(op: IntOp, b: IntWidth, signed: bool, l: int, r: int)
    requires InRange(l, b, signed) && InRange(r, b, signed) && (op.OpAdd? || op.OpSub? || op.OpMul?)
    ensures var v := EvaluateInteger(op, b, signed, Wrapping, l, r);
            v.Some? && InRange(v.value, b, signed) && Congruent(v.value, Raw(op, l, r), IntModulus(b))
  {
    hide Wrap, Congruent;
    var n, m := Raw(op, l, r), IntModulus(b);
    WrappedRaw(op, b, signed, l, r);
    WrapMeans(n % m, b, signed);
    ModUnique(n % m, m, 0, n % m);
    WrapResidue(n % m, m, signed);
    SameResidue(WrapToBits(n % m, b, signed), n, m);
  }

  lemma ExactQuotient(op: IntOp, l: int, r: int, n: int)
    requires IsDivision(op) && ExactResult(op, l, r, n)
    ensures r != 0 && n == if op.OpDiv? then TruncDiv(l, r) else TruncRem(l, r)
  {
    hide TruncDiv, TruncRem, Truncates;
    if op.OpDiv? {
      var rem :| Truncates(l, r, n, rem);
      TruncUnique(l, r, n, rem);
    } else {
      var q :| Truncates(l, r, q, n);
      TruncUnique(l, r, q, n);
    }
  }

  /** The quotient that does not fit wraps round to itself. */
  lemma MinimumDivided(b: IntWidth)
    ensures EvaluateInteger(OpDiv, b, true, Wrapping, Minimum(b, true), -1) == Some(Minimum(b, true))
    ensures EvaluateInteger(OpMod, b, true, Wrapping, Minimum(b, true), -1) == Some(0)
  {
    hide Wrap, TruncDiv, TruncRem;
    var l, m := Minimum(b, true), IntModulus(b);
    MinQuotient(l);
    TruncUnique(l, -1, -l, 0);
    WrapFixes(l, m, true);
    WrapFixes(0, m, true);
    ModShift(l, m, 1);
    WrapCongruent(-l, l, m, true);
  }

  /** Checked and trapping arithmetic: the exact result where it is in range, and
      no value anywhere else. */
  lemma CheckedMeans(op: IntOp, b: IntWidth, signed: bool, intent: Intent, l: int, r: int, n: int)
    requires InRange(l, b, signed) && InRange(r, b, signed) && IsArithmetic(op) && (intent.Checked? || intent.Trapping?)
    ensures EvaluateInteger(op, b, signed, intent, l, r) == Some(n) <==> ExactResult(op, l, r, n) && InRange(n, b, signed)
    ensures IsDivision(op) && r == 0 ==> EvaluateInteger(op, b, signed, intent, l, r) == None
  {
    hide EvaluateInteger, ExactResult;
    if IsDivision(op) {
      CheckedDivisionMeans(op, b, signed, intent, l, r, n);
    } else {
      CheckedValue(op, b, signed, intent, l, r);
      ExactRaw(op, l, r, n);
    }
  }

  lemma ExactRaw(op: IntOp, l: int, r: int, n: int)
    requires op.OpAdd? || op.OpSub? || op.OpMul?
    ensures ExactResult(op, l, r, n) <==> n == Raw(op, l, r)
  {
  }

  lemma CheckedDivisionMeans(op: IntOp, b: IntWidth, signed: bool, intent: Intent, l: int, r: int, n: int)
    requires InRange(l, b, signed) && InRange(r, b, signed) && IsDivision(op) && (intent.Checked? || intent.Trapping?)
    ensures EvaluateInteger(op, b, signed, intent, l, r) == Some(n) <==> ExactResult(op, l, r, n) && InRange(n, b, signed)
    ensures r == 0 ==> EvaluateInteger(op, b, signed, intent, l, r) == None
  {
    hide Wrap, TruncDiv, TruncRem, Truncates, ExactResult;
    CheckedQuotient(op, b, signed, intent, l, r);
    if ExactResult(op, l, r, n) {
      ExactQuotient(op, l, r, n);
    }
    if r != 0 {
      DivisionIsExact(op, l, r);
    } else {
      NoQuotient(op, l, n);
    }
  }

  lemma NoQuotient(op: IntOp, l: int, n: int)
    requires IsDivision(op)
    ensures !ExactResult(op, l, 0, n)
  {
  }

  lemma CheckedQuotient(op: IntOp, b: IntWidth, signed: bool, intent: Intent, l: int, r: int)
    requires InRange(l, b, signed) && InRange(r, b, signed) && IsDivision(op) && (intent.Checked? || intent.Trapping?)
    ensures EvaluateInteger(op, b, signed, intent, l, r)
         == if r == 0 then None
            else
              var q := if op.OpDiv? then TruncDiv(l, r) else TruncRem(l, r);
              if InRange(q, b, signed) then Some(q) else None
  {
    hide TruncDiv, TruncRem;
  }

  /** `v` is the value of the range closest to `n`. */
  predicate Closest(v: int, n: int, lo: int, hi: int) {
    && lo <= v <= hi
    && (lo <= n <= hi ==> v == n)
    && (n < lo ==> v == lo)
    && (n > hi ==> v == hi)
  }

  /** Saturating arithmetic: the value of the range closest to the exact result, and
      the largest one for a zero divisor. */
  lemma SaturatingMeans(op: IntOp, b: IntWidth, signed: bool, l: int, r: int, n: int)
    requires InRange(l, b, signed) && InRange(r, b, signed) && IsArithmetic(op)
    ensures var v := EvaluateInteger(op, b, signed, Saturating, l, r);
            && v.Some?
            && (ExactResult(op, l, r, n) ==> Closest(v.value, n, Minimum(b, signed), Maximum(b, signed)))
            && (IsDivision(op) && r == 0 ==> v.value == Maximum(b, signed))
  {
    hide Wrap, TruncDiv, TruncRem, Truncates;
    if IsDivision(op) {
      if ExactResult(op, l, r, n) {
        ExactQuotient(op, l, r, n);
      }
    } else {
      ReferenceSaturates(op, b, signed, l, r);
    }
  }

  /** Shifts: a negative count has no value; otherwise a left shift multiplies modulo
      2^w, a right shift divides and rounds down, by 2 to the count modulo w. */
  lemma ShiftMeans(op: IntOp, b: IntWidth, signed: bool, l: int, r: int)
    requires InRange(l, b, signed) && InRange(r, b, signed) && IsShift(op)
    ensures var v, p := EvaluateInteger(op, b, signed, Wrapping, l, r), Pow2(if r < 0 then 0 else r % BitCount(b));
            && (v.None? <==> r < 0)
            && (v.Some? ==> InRange(v.value, b, signed))
            && (v.Some? && op.OpShl? ==> Congruent(v.value, l * p, IntModulus(b)))
            && (v.Some? && op.OpShr? ==> v.value * p <= l < (v.value + 1) * p)
  {
    hide Wrap, Pow2;
    if r >= 0 {
      var p := Pow2(r % BitCount(b));
      if op.OpShl? {
        LeftMeans(b, signed, l, p);
      } else {
        RightMeans(b, signed, l, p);
      }
    }
  }

  lemma LeftMeans(b: IntWidth, signed: bool, l: int, p: int)
    requires p > 0
    ensures var m := IntModulus(b);
            var v := WrapToBits(((l % m) * p) % m, b, signed);
            InRange(v, b, signed) && Congruent(v, l * p, m)
  {
    hide Wrap;
    var m := IntModulus(b);
    var n := ((l % m) * p) % m;
    WrapMeans(n, b, signed);
    WrapResidue(n, m, signed);
    ModUnique(n, m, 0, n);
    ModUnique(l % m, m, 0, l % m);
    ModMul(l % m, p, m);
    ModMul(l, p, m);
    SameResidue(WrapToBits(n, b, signed), l * p, m);
  }

  lemma RightMeans(b: IntWidth, signed: bool, l: int, p: int)
    requires p > 0 && InRange(l, b, signed)
    ensures var m := IntModulus(b);
            var v := WrapToBits(if signed then (l / p) % m else (l % m) / p, b, signed);
            InRange(v, b, signed) && v * p <= l < (v + 1) * p
  {
    hide Wrap;
    var m := IntModulus(b);
    WrapMeans(if signed then (l / p) % m else (l % m) / p, b, signed);
    RightShiftValue(b, signed, l, p);
    DivMod(l, p);
    Floors(l, p, l / p);
  }

  lemma Floors(l: int, p: int, q: int)
    requires p > 0 && q == l / p
    ensures q * p <= l < (q + 1) * p
  {
  }

  /** Bitwise operators act on the binary digits of the two's-complement patterns. */
  lemma BitwiseValueMeans(op: IntOp, b: IntWidth, signed: bool, l: int, r: int, k: nat)
    requires InRange(l, b, signed) && InRange(r, b, signed) && IsBitwise(op) && k < BitCount(b)
    ensures var v, m := EvaluateInteger(op, b, signed, Wrapping, l, r), IntModulus(b);
            && v.Some? && InRange(v.value, b, signed)
            && (Bit(v.value % m, k) <==>
                  (match op
                   case OpAnd => Bit(l % m, k) && Bit(r % m, k)
                   case OpOr => Bit(l % m, k) || Bit(r % m, k)
                   case _ => Bit(l % m, k) != Bit(r % m, k)))
  {
    hide Bitwise, Pow2, Bit;
    Pow2Values();
    var m := IntModulus(b);
    var p := Bitwise(BitOf(op), l % m, r % m, BitCount(b));
    BitwiseMeans(BitOf(op), l % m, r % m, BitCount(b), k);
    ModUnique(p, m, 0, p);
    ModUnique(p - m, m, -1, p);
  }

  /** Conversions: an integer goes to the in-range number congruent to it, a truth
      value to 0 or 1, and nothing converts to another kind of type. */
  lemma ConvertMeans(ty: Ty, v: Value)
    ensures ty.TInt? && v.IntV? ==>
              var e := EvaluateConvert(ty, v);
              e.Yields? && e.v.IntV? && InRange(e.v.n, ty.bits, ty.signed) && Congruent(e.v.n, v.n, IntModulus(ty.bits))
    ensures ty.TInt? && v.BoolV? ==> EvaluateConvert(ty, v) == Yields(IntV(if v.b then 1 else 0))
    ensures !ty.TInt? || v.SeqV? ==> EvaluateConvert(ty, v) == Bad
  {
    hide Wrap;
    if ty.TInt? && v.IntV? {
      WrapMeans(v.n, ty.bits, ty.signed);
    }
  }

  /** Operands out of range, and bitwise operators or shifts that do not wrap, have
      no value. */
  lemma RefusedMeans(op: IntOp, b: IntWidth, signed: bool, intent: Intent, l: int, r: int)
    requires !InRange(l, b, signed) || !InRange(r, b, signed) || (!IsArithmetic(op) && !intent.Wrapping?)
    ensures EvaluateInteger(op, b, signed, intent, l, r) == None
  {
  }
}
