/** The C fragment's expressions: a defined expression has its static type and a value
    of that type, and which operations are undefined. */
module CMeaning {
  import opened Words
  import opened CLang

  /** The widths of the types, and the values that fit them. */
  lemma TypesAre(t: CType, n: int)
    ensures WidthOf(U8) == 8 && WidthOf(U16) == 16 && WidthOf(I32) == WidthOf(U32) == 32
    ensures WidthOf(I64) == WidthOf(U64) == 64 && WidthOf(I128) == WidthOf(U128) == 128
    ensures ModulusOf(t) == Pow2(WidthOf(t))
    ensures Fits(t, n) <==> if t in {I32, I64, I128} then -Pow2(WidthOf(t) - 1) <= n < Pow2(WidthOf(t) - 1) else 0 <= n < Pow2(WidthOf(t))
  {
    Pow2Values();
    Pow2Sum(64, 64);
    Pow2Sum(64, 63);
    hide Pow2;
  }

  /** Conversion keeps the residue and lands in the type. */
  lemma ConversionMeans(t: CType, n: int)
    ensures Fits(t, ToType(t, n)) && ToType(t, n) % ModulusOf(t) == n % ModulusOf(t)
  {
    WrapResidue(n, ModulusOf(t), Signed(t));
  }

  /** A constant has the first type of its list that it fits (section 6.4.4.1). */
  lemma LiteralMeans(n: nat, suffix: Suffix)
    ensures var t := LiteralType(n, suffix);
            && (suffix.NoSuffix? ==> t in {I32, I64, U64} && (t == I32 <==> Fits(I32, n)) && (t == U64 <==> !Fits(I64, n)))
            && (suffix.SuffixU? ==> t in {U32, U64} && (t == U32 <==> Fits(U32, n)))
            && (suffix.SuffixLL? ==> t == I64) && (suffix.SuffixULL? ==> t == U64)
  {
  }

  /** The common type of the usual arithmetic conversions: `int` at least, no narrower
      than either operand, unsigned exactly when an operand that wide is. */
  lemma CommonMeans(a: CType, b: CType)
    ensures var t := Common(a, b);
            && t == Common(b, a)
            && WidthOf(t) >= 32 && WidthOf(t) >= WidthOf(a) && WidthOf(t) >= WidthOf(b)
            && (WidthOf(t) == 32 || WidthOf(t) == WidthOf(a) || WidthOf(t) == WidthOf(b))
            && (!Signed(t) <==> (!Signed(a) && WidthOf(a) == WidthOf(t)) || (!Signed(b) && WidthOf(b) == WidthOf(t)))
  {
  }

  /** Which arithmetic is undefined: signed results out of range, a zero divisor, and a
      quotient out of range also where the remainder is asked for. */
  lemma ArithmeticMeans(op: BinaryOp, t: CType, a: int, b: int)
    requires op in {Add, Sub, Mul, Div, Rem}
    ensures var r := Arithmetic(op, t, a, b);
            && (op in {Add, Sub, Mul} && Signed(t) ==> (r.Undef? <==> !Fits(t, match op case Add => a + b case Sub => a - b case _ => a * b)))
            && (op in {Add, Sub, Mul} && !Signed(t) ==> r.Ok?)
            && (op in {Div, Rem} && Signed(t) ==> (r.Undef? <==> b == 0 || !Fits(t, TruncDiv(a, b)) || (op == Rem && !Fits(t, TruncRem(a, b)))))
  {
    hide TruncDiv, TruncRem;
  }

  /** Shifts are undefined for counts outside the width, and a left shift also for a
      negative operand or a result that does not fit a signed type. */
  lemma ShiftMeans(op: BinaryOp, t: CType, a: int, count: int)
    requires op == Shl || op == Shr
    ensures var r, p := Shift(op, t, a, count), Pow2(if count < 0 then 0 else count);
            && (r.Undef? <==> count < 0 || count >= WidthOf(t) || (op == Shl && Signed(t) && (a < 0 || !Fits(t, a * p))))
            && (r.Ok? && op == Shr ==> r.v.n * p <= a < (r.v.n + 1) * p)
            && (r.Ok? && op == Shl ==> r.v.n % ModulusOf(t) == (a * p) % ModulusOf(t))
  {
    hide Pow2;
    var p := Pow2(if count < 0 then 0 else count);
    if op == Shr {
      Floor(a, p);
    } else {
      ModUnique((a * p) % ModulusOf(t), ModulusOf(t), 0, (a * p) % ModulusOf(t));
    }
  }

  lemma Floor(a: int, p: int)
    requires p > 0
    ensures (a / p) * p <= a < (a / p + 1) * p
  {
  }

  // ---------- Types of expressions ----------

  /** Suffixed constants are written only where they fit their type. */
  predicate Written(e: Expr)
    decreases e
  {
    match e
    case Var(_) => true
    case Lit(n, suffix) => Fits(LiteralType(n, suffix), n)
    case Bin(_, a, b) => Written(a) && Written(b)
    case Cond(c, a, b) => Written(c) && Written(a) && Written(b)
    case Cast(_, a) => Written(a)
    case Neg(a) => Written(a)
    case BitNot(a) => Written(a)
    case LogicalNot(a) => Written(a)
  }

  predicate Consistent(vars: Locals) { forall x | x in vars.types && x in vars.values :: Fits(vars.types[x], vars.values[x]) }

  /** A defined expression has its static type, and a value that fits it. */
  lemma {:induction false} EvalSound(e: Expr, vars: Locals)
    requires Written(e) && Consistent(vars) && Eval(e, vars).Ok?
    ensures Eval(e, vars).v.ty == TypeOf(e, vars.types) && Fits(Eval(e, vars).v.ty, Eval(e, vars).v.n)
    decreases e
  {
    hide Fits, ToType, Consistent;
    match e
    case Var(x) => VarSound(x, vars);
    case Lit(_, _) =>
    case Bin(op, a, b) =>
      EvalSound(a, vars);
      TruthFits();
      var x, y := Eval(a, vars), Eval(b, vars);
      if y.Ok? {
        EvalSound(b, vars);
        if !op.LogicalAnd? && !op.LogicalOr? {
          BinarySound(op, x.v, y.v);
        }
      }
    case Cond(c, a, b) =>
      EvalSound(c, vars);
      var y := if Eval(c, vars).v.n != 0 then Eval(a, vars) else Eval(b, vars);
      ConversionMeans(TypeOf(e, vars.types), y.v.n);
    case Cast(_, a) => EvalSound(a, vars); UnarySound(e, Eval(a, vars).v);
    case Neg(a) => EvalSound(a, vars); UnarySound(e, Eval(a, vars).v);
    case BitNot(a) => EvalSound(a, vars); UnarySound(e, Eval(a, vars).v);
    case LogicalNot(a) => EvalSound(a, vars); UnarySound(e, Eval(a, vars).v);
  }

  lemma VarSound(x: string, vars: Locals)
    requires Consistent(vars) && x in vars.types && x in vars.values
    ensures Fits(vars.types[x], vars.values[x])
  {
    hide Fits;
  }

  lemma TruthFits()
    ensures Fits(I32, 0) && Fits(I32, 1)
  {
  }

  lemma UnarySound(e: Expr, x: CValue)
    requires e.Cast? || e.Neg? || e.BitNot? || e.LogicalNot?
    requires Unary(e, x).Ok?
    ensures var v := Unary(e, x).v;
            && Fits(v.ty, v.n)
            && v.ty == if e.Cast? then e.ty else if e.LogicalNot? then I32 else Promote(x.ty)
  {
    hide ToType;
    var t := Promote(x.ty);
    TruthFits();
    ConversionMeans(if e.Cast? then e.ty else t, if e.Cast? then x.n else -ToType(t, x.n) - 1);
    ResultFits(t, -ToType(t, x.n));
  }

  lemma ResultFits(t: CType, n: int)
    ensures Result(t, n).Ok? ==> Result(t, n).v.ty == t && Fits(t, Result(t, n).v.n)
  {
  }

  lemma BinarySound(op: BinaryOp, x: CValue, y: CValue)
    requires Fits(x.ty, x.n) && Fits(y.ty, y.n) && !op.LogicalAnd? && !op.LogicalOr? && Binary(op, x, y).Ok?
    ensures var v := Binary(op, x, y).v;
            && Fits(v.ty, v.n)
            && v.ty == if IsComparison(op) then I32 else if op.Shl? || op.Shr? then Promote(x.ty) else Common(x.ty, y.ty)
  {
    hide ToType, Bitwise, TruncDiv, TruncRem, Pow2, Compare;
    TruthFits();
    if op.Shl? || op.Shr? {
      ShiftSound(op, Promote(x.ty), ToType(Promote(x.ty), x.n), y.n);
      ConversionMeans(Promote(x.ty), x.n);
    } else {
      ArithmeticSound(op, Common(x.ty, y.ty), ToType(Common(x.ty, y.ty), x.n), ToType(Common(x.ty, y.ty), y.n));
    }
  }

  lemma ShiftSound(op: BinaryOp, t: CType, a: int, count: int)
    requires (op == Shl || op == Shr) && Shift(op, t, a, count).Ok?
    ensures Shift(op, t, a, count).v.ty == t && (Fits(t, a) ==> Fits(t, Shift(op, t, a, count).v.n))
  {
    hide Pow2;
    if op == Shr {
      Smaller(a, Pow2(count));
    } else {
      ResultFits(t, a * Pow2(count));
    }
  }

  /** A floor quotient is no further from zero. */
  lemma Smaller(a: int, p: int)
    requires p > 0
    ensures if a >= 0 then 0 <= a / p <= a else a <= a / p < 0
  {
    Floor(a, p);
    var q := a / p;
    if a >= 0 {
      QuotientBound(a, p);
    } else if q >= 0 {
      MulNonNegative(q, p);
    } else if q < a {
      MulAtLeast(a - q, p);
      NegatedProducts(q, p);
      MulGrows(-q, p);
      Stretch(a, q, p);
    }
  }

  lemma Stretch(a: int, q: int, p: int)
    requires a < 0 && q < a && p > 0
    ensures (q + 1) * p <= a
  {
    assert (q + 1) * p <= q + 1 by {
      NegatedProducts(q + 1, p);
      if q + 1 < 0 {
        MulGrows(-(q + 1), p);
      }
    }
  }

  lemma ArithmeticSound(op: BinaryOp, t: CType, a: int, b: int)
    requires !op.Shl? && !op.Shr? && Arithmetic(op, t, a, b).Ok?
    ensures var v := Arithmetic(op, t, a, b).v;
            Fits(v.ty, v.n) && v.ty == if IsComparison(op) then I32 else t
  {
    hide ToType, Bitwise, TruncDiv, TruncRem, Fits, Compare, Pattern;
    TruthFits();
    match op
    case Add => ResultFits(t, a + b);
    case Sub => ResultFits(t, a - b);
    case Mul => ResultFits(t, a * b);
    case Div => ResultFits(t, TruncDiv(a, b));
    case Rem => ResultFits(t, TruncRem(a, b));
    case And => ConversionMeans(t, Bitwise(BitAnd, Pattern(t, a), Pattern(t, b), WidthOf(t)));
    case Or => ConversionMeans(t, Bitwise(BitOr, Pattern(t, a), Pattern(t, b), WidthOf(t)));
    case Xor => ConversionMeans(t, Bitwise(BitXor, Pattern(t, a), Pattern(t, b), WidthOf(t)));
    case _ =>
  }
}
