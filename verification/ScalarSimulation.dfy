/** Scalar instructions: the emitted statements simulate the reference executor. */
module ScalarSimulation {
  import opened Words
  import opened Mncs
  import opened Emit
  import opened Naming
  import opened IntegerLowering
  import opened Envelope
  import opened Relation
  import C = CLang
  import opened Execution

  /** What every instruction lemma may assume. */
  ghost predicate Ready(m: Module, fr: Frame, inst: Inst, env: Env, st: C.State) {
    && FrameOk(fr)
    && Related(fr, env, st)
    && WellTyped(m, fr.types, inst)
    && Available(Uses(inst), env.Keys)
  }

  function X(fr: Frame, id: Id): string { NameOf(fr.names, id) }

  // ---------- Constants ----------

  lemma EvalLiteral(vars: C.Locals, t: C.CType, n: int)
    requires -TWO_63 <= n < TWO_64 && (t.I32? || t.I64?)
    ensures C.Eval(C.Cast(t, IntegerLiteral(n)), vars) == C.Ok(C.CValue(t, C.ToType(t, n)))
  {
    if n < 0 {
      var p := C.LiteralType(-n, C.NoSuffix);
      if p.U64? {
        C.ToTypeFixes(C.U64, -n);
        ModUnique(n, TWO_64, -1, n + TWO_64);
        assert C.Eval(IntegerLiteral(n), vars) == C.Ok(C.CValue(C.U64, n + TWO_64));
        EvalCast(vars, t, IntegerLiteral(n), C.CValue(C.U64, n + TWO_64));
        ShiftedLiteral(t, n);
      } else {
        EvalNeg(vars, Num(-n), p, -n);
        EvalCast(vars, t, IntegerLiteral(n), C.CValue(p, n));
      }
    } else {
      EvalCast(vars, t, IntegerLiteral(n), C.CValue(C.LiteralType(n, C.NoSuffix), n));
    }
  }

  lemma ShiftedLiteral(t: C.CType, n: int)
    requires t.I32? || t.I64?
    ensures C.ToType(t, n + TWO_64) == C.ToType(t, n)
  {
    ModShift(n, C.ModulusOf(t), TWO_64 / C.ModulusOf(t));
    WrapCongruent(n + TWO_64, n, C.ModulusOf(t), true);
  }

  lemma SimConst(m: Module, fr: Frame, inst: Inst, env: Env, st: C.State, depth: nat)
    requires Ready(m, fr, inst, env, st) && inst.Const?
    ensures Simulates(fr, inst.dest, Evaluate(inst, env), BytesOf(inst), env, st, C.Run(InstCode(fr.names, inst), depth, st))
  {
    hide Wrap;
    var d, n := inst.dest, inst.literal;
    DestName(fr, st, d);
    EvalLiteral(st.vars, CTypeOf(d.ty), n);
    Idempotent(CTypeOf(d.ty), n);
    var c := C.ToType(CTypeOf(d.ty), n);
    RunAssign(fr.names[d.id], C.Cast(CTypeOf(d.ty), IntegerLiteral(n)), c, depth, st);
    if d.ty.TBool? {
      C.ToTypeFixes(C.I32, n);
    }
    Assigned(fr, env, st, d, Evaluate(inst, env).v, c, C.Run(InstCode(fr.names, inst), depth, st));
  }

  // ---------- Integers ----------

  lemma SimInteger(m: Module, fr: Frame, inst: Inst, env: Env, st: C.State, depth: nat)
    requires Ready(m, fr, inst, env, st) && inst.Integer? && InEnvelope(inst, env)
    ensures Simulates(fr, inst.dest, Evaluate(inst, env), BytesOf(inst), env, st, C.Run(InstCode(fr.names, inst), depth, st))
  {
    hide IntegerEnvelope, IntegerCode, Wrap;
    var d, b, s := inst.dest, inst.dest.ty.bits, inst.dest.ty.signed;
    assert Uses(inst)[0] == inst.lhs && Uses(inst)[1] == inst.rhs;
    DestName(fr, st, d);
    IntOperand(fr, env, st, inst.lhs, b, s);
    IntOperand(fr, env, st, inst.rhs, b, s);
    var l, r := env[inst.lhs].n, env[inst.rhs].n;
    IntegerCodeExact(fr.names[d.id], d.ty, inst.op, inst.intent, inst.permitted, X(fr, inst.lhs), X(fr, inst.rhs), l, r, depth, st);
    var v := EvaluateInteger(inst.op, b, s, inst.intent, l, r);
    if v.Some? {
      IntegerResultInRange(inst.op, b, s, inst.intent, l, r);
      Assigned(fr, env, st, d, IntV(v.value), CellOf(v.value, b), C.Run(InstCode(fr.names, inst), depth, st));
    }
  }

  /** The reference executor's results stay in the declared range. */
  lemma IntegerResultInRange(op: IntOp, b: IntWidth, s: bool, intent: Intent, l: int, r: int)
    requires EvaluateInteger(op, b, s, intent, l, r).Some?
    ensures InRange(EvaluateInteger(op, b, s, intent, l, r).value, b, s)
  {
    hide TruncDiv, TruncRem, Pow2;
    MaskBits(b);
    if intent.Saturating? {
      hide Wrap;
    }
  }

  lemma SimConvert(m: Module, fr: Frame, inst: Inst, env: Env, st: C.State, depth: nat)
    requires Ready(m, fr, inst, env, st) && inst.Convert? && InEnvelope(inst, env)
    ensures Simulates(fr, inst.dest, Evaluate(inst, env), BytesOf(inst), env, st, C.Run(InstCode(fr.names, inst), depth, st))
  {
    hide Wrap, ConvertEnvelope;
    var d, b, s := inst.dest, inst.dest.ty.bits, inst.dest.ty.signed;
    assert Uses(inst)[0] == inst.src;
    DestName(fr, st, d);
    OperandHolds(fr, env, st, inst.src);
    var c := Cell(fr, inst.src, st);
    EvalCast(st.vars, CellType(b), C.Var(X(fr, inst.src)), C.CValue(CTypeOf(inst.from), c));
    Idempotent(CellType(b), c);
    RunAssign(fr.names[d.id], C.Cast(CellType(b), C.Var(X(fr, inst.src))), CellOf(c, b), depth, st);
    if inst.from.TInt? {
      ConvertExact(inst.from.bits, inst.from.signed, b, s, env[inst.src].n);
    }
    ConvertInRange(env[inst.src], b, s);
    Assigned(fr, env, st, d, Evaluate(inst, env).v, CellOf(c, b), C.Run(InstCode(fr.names, inst), depth, st));
  }

  lemma ConvertInRange(v: Value, b: IntWidth, s: bool)
    requires !v.SeqV?
    ensures EvaluateConvert(TInt(b, s), v).Yields? && EvaluateConvert(TInt(b, s), v).v.IntV?
    ensures InRange(EvaluateConvert(TInt(b, s), v).v.n, b, s)
  {
  }

  // ---------- Comparisons and booleans ----------

  lemma EvalCompare(vars: C.Locals, p: Predicate, b: IntWidth, s: bool, x: string, y: string, l: int, r: int)
    requires Operands(vars, x, y, b, l, r) && InRange(l, b, s) && InRange(r, b, s)
    ensures C.Eval(CompareExpr(p, b, s, x, y), vars) == C.Truth(Compares(p, l, r))
  {
    hide Wrap;
    var cl, cr := CellOf(l, b), CellOf(r, b);
    if s || p.PEq? || p.PNe? {
      C.ToTypeFixes(CellType(b), cl);
      C.ToTypeFixes(CellType(b), cr);
      EvalBin(vars, PredicateOp(p), C.Var(x), C.Var(y), C.CValue(CellType(b), cl), C.CValue(CellType(b), cr));
      SameCellResult(l, r, b, s);
      if s {
        CellOfSigned(l, b);
        CellOfSigned(r, b);
      }
    } else {
      EvalCompareUnsigned(vars, p, b, x, y, l, r);
    }
  }

  function CompareType(b: IntWidth): C.CType { match b case B8 => C.U8 case B16 => C.U16 case B32 => C.U32 case B64 => C.U64 }

  lemma EvalCompareUnsigned(vars: C.Locals, p: Predicate, b: IntWidth, x: string, y: string, l: int, r: int)
    requires Operands(vars, x, y, b, l, r) && InRange(l, b, false) && InRange(r, b, false) && !p.PEq? && !p.PNe?
    ensures C.Eval(CompareExpr(p, b, false, x, y), vars) == C.Truth(Compares(p, l, r))
  {
    hide Wrap;
    var u := CompareType(b);
    CellAsUnsigned(l, b);
    CellAsUnsigned(r, b);
    EvalCast(vars, u, C.Var(x), C.CValue(CellType(b), CellOf(l, b)));
    EvalCast(vars, u, C.Var(y), C.CValue(CellType(b), CellOf(r, b)));
    C.ToTypeFixes(C.Promote(u), l);
    C.ToTypeFixes(C.Promote(u), r);
    EvalBin(vars, PredicateOp(p), C.Cast(u, C.Var(x)), C.Cast(u, C.Var(y)), C.CValue(u, l), C.CValue(u, r));
  }

  lemma CellAsUnsigned(n: int, b: IntWidth)
    requires InRange(n, b, false)
    ensures C.ToType(CompareType(b), CellOf(n, b)) == n
  {
    CellResidue(n, b);
    WrapFixes(n, IntModulus(b), false);
  }

  lemma SimCompare(m: Module, fr: Frame, inst: Inst, env: Env, st: C.State, depth: nat)
    requires Ready(m, fr, inst, env, st) && inst.Compare?
    ensures Simulates(fr, inst.dest, Evaluate(inst, env), BytesOf(inst), env, st, C.Run(InstCode(fr.names, inst), depth, st))
  {
    hide C.Eval, C.Run, Wrap, CompareExpr;
    assert Uses(inst)[0] == inst.lhs && Uses(inst)[1] == inst.rhs;
    IntOperand(fr, env, st, inst.lhs, inst.bits, inst.signed);
    IntOperand(fr, env, st, inst.rhs, inst.bits, inst.signed);
    EvalCompare(st.vars, inst.pred, inst.bits, inst.signed, X(fr, inst.lhs), X(fr, inst.rhs), env[inst.lhs].n, env[inst.rhs].n);
    SimTruth(fr, inst.dest, CompareExpr(inst.pred, inst.bits, inst.signed, X(fr, inst.lhs), X(fr, inst.rhs)),
             Compares(inst.pred, env[inst.lhs].n, env[inst.rhs].n), env, st, depth);
  }

  /** `d = (int32_t)(e);` for an expression that is a truth value. */
  lemma SimTruth(fr: Frame, d: Val, e: C.Expr, b: bool, env: Env, st: C.State, depth: nat)
    requires FrameOk(fr) && Related(fr, env, st) && Typed(fr.types, d.id, d.ty) && d.ty == TBool
    requires C.Eval(e, st.vars) == C.Truth(b)
    ensures Simulates(fr, d, Yields(BoolV(b)), 0, env, st, C.Run([C.Assign(NameOf(fr.names, d.id), C.Cast(CTypeOf(d.ty), e))], depth, st))
  {
    hide Wrap;
    var n := if b then 1 else 0;
    DestName(fr, st, d);
    C.ToTypeFixes(C.I32, n);
    EvalCast(st.vars, C.I32, e, C.CValue(C.I32, n));
    RunAssign(fr.names[d.id], C.Cast(C.I32, e), n, depth, st);
    Assigned(fr, env, st, d, BoolV(b), n, C.Run([C.Assign(fr.names[d.id], C.Cast(C.I32, e))], depth, st));
  }

  function Connective(inst: Inst): C.BinaryOp
    requires inst.Boolean? || inst.BooleanCompare?
  {
    if inst.Boolean? then if inst.conj then C.LogicalAnd else C.LogicalOr
    else if inst.equal then C.Eq else C.Ne
  }

  lemma EvalConnective(vars: C.Locals, inst: Inst, x: string, y: string, a: bool, b: bool)
    requires inst.Boolean? || inst.BooleanCompare?
    requires Holds(vars, x, C.I32, if a then 1 else 0) && Holds(vars, y, C.I32, if b then 1 else 0)
    ensures C.Eval(C.Bin(Connective(inst), C.Var(x), C.Var(y)), vars)
         == C.Truth(if inst.Boolean? then (if inst.conj then a && b else a || b) else (a == b) == inst.equal)
  {
    hide Wrap;
    C.ToTypeFixes(C.I32, 0);
    C.ToTypeFixes(C.I32, 1);
  }

  lemma SimBoolean(m: Module, fr: Frame, inst: Inst, env: Env, st: C.State, depth: nat)
    requires Ready(m, fr, inst, env, st) && (inst.Boolean? || inst.BooleanCompare?)
    ensures Simulates(fr, inst.dest, Evaluate(inst, env), BytesOf(inst), env, st, C.Run(InstCode(fr.names, inst), depth, st))
  {
    hide Wrap, C.Eval, C.Run;
    assert Uses(inst)[0] == inst.lhs && Uses(inst)[1] == inst.rhs;
    BoolOperand(fr, env, st, inst.lhs);
    BoolOperand(fr, env, st, inst.rhs);
    EvalConnective(st.vars, inst, X(fr, inst.lhs), X(fr, inst.rhs), env[inst.lhs].b, env[inst.rhs].b);
    SimTruth(fr, inst.dest, C.Bin(Connective(inst), C.Var(X(fr, inst.lhs)), C.Var(X(fr, inst.rhs))), Evaluate(inst, env).v.b, env, st, depth);
  }

  lemma SimNot(m: Module, fr: Frame, inst: Inst, env: Env, st: C.State, depth: nat)
    requires Ready(m, fr, inst, env, st) && inst.BooleanNot?
    ensures Simulates(fr, inst.dest, Evaluate(inst, env), BytesOf(inst), env, st, C.Run(InstCode(fr.names, inst), depth, st))
  {
    hide Wrap;
    assert Uses(inst)[0] == inst.src;
    BoolOperand(fr, env, st, inst.src);
    SimTruth(fr, inst.dest, C.LogicalNot(C.Var(X(fr, inst.src))), !env[inst.src].b, env, st, depth);
  }

  // ---------- Selection ----------

  /** One arm of the blend: the pattern under an all-ones mask, zero under a zero mask. */
  lemma EvalMasked(vars: C.Locals, x: string, mask: C.Expr, p: int, on: bool)
    requires Holds(vars, x, C.U64, p) && 0 <= p < TWO_64
    requires C.Eval(mask, vars) == C.Ok(C.CValue(C.U64, if on then TWO_64 - 1 else 0))
    ensures C.Eval(C.Bin(C.And, C.Var(x), mask), vars) == C.Ok(C.CValue(C.U64, if on then p else 0))
  {
    hide Wrap;
    Pow2Values();
    var k := if on then TWO_64 - 1 else 0;
    BitsU64(C.And, p, k);
    EvalBin(vars, C.And, C.Var(x), mask, C.CValue(C.U64, p), C.CValue(C.U64, k));
    if on {
      AndOnes(p, 64);
      ModUnique(p, TWO_64, 0, p);
    } else {
      BitwiseZero(BitAnd, p, 64);
    }
  }

  lemma OrZero(p: int)
    requires 0 <= p < TWO_64
    ensures Bitwise(BitOr, p, 0, 64) == p && Bitwise(BitOr, 0, p, 64) == p
  {
    Pow2Values();
    BitwiseZero(BitOr, p, 64);
    ModUnique(p, TWO_64, 0, p);
  }

  function BlendExpr(): C.Expr {
    C.Bin(C.Or, C.Bin(C.And, C.Var("mncs_t"), C.Var("mncs_mask")), C.Bin(C.And, C.Var("mncs_f"), C.BitNot(C.Var("mncs_mask"))))
  }

  lemma EvalBlend(vars: C.Locals, c: bool, t: int, f: int)
    requires Holds(vars, "mncs_t", C.U64, t) && Holds(vars, "mncs_f", C.U64, f) && 0 <= t < TWO_64 && 0 <= f < TWO_64
    requires Holds(vars, "mncs_mask", C.U64, if c then TWO_64 - 1 else 0)
    ensures C.Eval(BlendExpr(), vars) == C.Ok(C.CValue(C.U64, if c then t else f))
  {
    hide Wrap;
    var k := if c then TWO_64 - 1 else 0;
    var a, z := if c then t else 0, if c then 0 else f;
    C.ToTypeFixes(C.U64, k);
    C.ToTypeFixes(C.U64, TWO_64 - 1 - k);
    ComplementU64(k);
    assert C.Eval(C.BitNot(C.Var("mncs_mask")), vars) == C.Ok(C.CValue(C.U64, TWO_64 - 1 - k));
    EvalMasked(vars, "mncs_t", C.Var("mncs_mask"), t, c);
    EvalMasked(vars, "mncs_f", C.BitNot(C.Var("mncs_mask")), f, !c);
    BitsU64(C.Or, a, z);
    EvalBin(vars, C.Or, C.Bin(C.And, C.Var("mncs_t"), C.Var("mncs_mask")),
            C.Bin(C.And, C.Var("mncs_f"), C.BitNot(C.Var("mncs_mask"))), C.CValue(C.U64, a), C.CValue(C.U64, z));
    OrZero(if c then t else f);
  }

  lemma ComplementU64(k: int)
    requires 0 <= k < TWO_64
    ensures C.ToType(C.U64, -k - 1) == TWO_64 - 1 - k
  {
    ModUnique(-k - 1, TWO_64, -1, TWO_64 - 1 - k);
  }

  /** `uint64_t mncs_mask = 0u - (uint64_t)c;` is all ones for true, zero for false. */
  lemma EvalMaskInit(vars: C.Locals, x: string, c: bool)
    requires Holds(vars, x, C.I32, if c then 1 else 0)
    ensures C.Eval(C.Bin(C.Sub, NumU(0), AsU64(x)), vars) == C.Ok(C.CValue(C.U64, if c then TWO_64 - 1 else 0))
  {
    hide Wrap;
    var n := if c then 1 else 0;
    EvalAsU64(vars, x);
    C.ToTypeFixes(C.U64, n);
    C.ToTypeFixes(C.U64, 0);
    EvalBin(vars, C.Sub, NumU(0), AsU64(x), C.CValue(C.U32, 0), C.CValue(C.U64, n));
  }

  /** Cells come back through their 64-bit patterns unchanged. */
  lemma PatternBack(t: C.CType, c: int)
    requires C.Fits(t, c) && (t.I32? || t.I64? || t.U64?)
    ensures C.ToType(t, c % TWO_64) == c
  {
    ModOfMod(c, TWO_64, C.ModulusOf(t), TWO_64 / C.ModulusOf(t));
    WrapCongruent(c % TWO_64, c, C.ModulusOf(t), C.Signed(t));
    C.ToTypeFixes(t, c);
  }

  lemma RunDeclareU64(x: string, e: C.Expr, n: int, depth: nat, st: C.State)
    requires C.Eval(e, st.vars) == C.Ok(C.CValue(C.U64, n)) && 0 <= n < TWO_64
    ensures C.Run([C.Declare(C.U64, x, e)], depth, st) == C.Next(WithTemp(st, C.U64, x, n))
  {
    C.ToTypeFixes(C.U64, n);
    RunDeclare(C.U64, x, e, n, depth, st);
  }

  lemma SameTrans(a: C.Locals, b: C.Locals, c: C.Locals)
    requires SameElsewhere(a, b, "") && SameElsewhere(b, c, "")
    ensures SameElsewhere(a, c, "")
  {
  }

  lemma SimSelect(m: Module, fr: Frame, inst: Inst, env: Env, st: C.State, depth: nat)
    requires Ready(m, fr, inst, env, st) && inst.Select?
    ensures Simulates(fr, inst.dest, Evaluate(inst, env), BytesOf(inst), env, st, C.Run(InstCode(fr.names, inst), depth, st))
  {
    hide C.Eval, C.Run, Wrap;
    var d, cty := inst.dest, CTypeOf(inst.dest.ty);
    assert Uses(inst)[0] == inst.cond && Uses(inst)[1] == inst.whenTrue && Uses(inst)[2] == inst.whenFalse;
    DestName(fr, st, d);
    BoolOperand(fr, env, st, inst.cond);
    OperandHolds(fr, env, st, inst.whenTrue);
    OperandHolds(fr, env, st, inst.whenFalse);
    var c, t, f := env[inst.cond].b, Cell(fr, inst.whenTrue, st), Cell(fr, inst.whenFalse, st);
    RunSelect(fr.names[d.id], cty, X(fr, inst.cond), X(fr, inst.whenTrue), X(fr, inst.whenFalse), c, t, f, depth, st);
    Assigned(fr, env, st, d, Evaluate(inst, env).v, if c then t else f, C.Run(InstCode(fr.names, inst), depth, st));
  }

  lemma RunSelect(d: string, cty: C.CType, x: string, y: string, z: string, c: bool, t: int, f: int, depth: nat, st: C.State)
    requires IsValueName(d) && IsValueName(x) && IsValueName(y) && IsValueName(z)
    requires d in st.vars.types && st.vars.types[d] == cty && (cty.I32? || cty.I64? || cty.U64?)
    requires Holds(st.vars, x, C.I32, if c then 1 else 0)
    requires Holds(st.vars, y, cty, t) && Holds(st.vars, z, cty, f) && C.Fits(cty, t) && C.Fits(cty, f)
    ensures Assigns(st, C.Run(SelectCode(d, cty, x, y, z), depth, st), d, if c then t else f)
  {
    hide Wrap, C.Eval, C.Run;
    var code := SelectCode(d, cty, x, y, z);
    var k, p, q := if c then TWO_64 - 1 else 0, t % TWO_64, f % TWO_64;
    var s1 := WithTemp(st, C.U64, "mncs_mask", k);
    var s2 := WithTemp(s1, C.U64, "mncs_t", p);
    var s3 := WithTemp(s2, C.U64, "mncs_f", q);
    TempsOnly(st, C.U64, "mncs_mask", k);
    TempsOnly(s1, C.U64, "mncs_t", p);
    TempsOnly(s2, C.U64, "mncs_f", q);
    SameTrans(st.vars, s1.vars, s2.vars);
    SameTrans(st.vars, s2.vars, s3.vars);
    EvalMaskInit(st.vars, x, c);
    RunDeclareU64("mncs_mask", code[0].e, k, depth, st);
    EvalAsU64(s1.vars, y);
    RunDeclareU64("mncs_t", code[1].e, p, depth, s1);
    EvalAsU64(s2.vars, z);
    RunDeclareU64("mncs_f", code[2].e, q, depth, s2);
    SelectFinal(d, cty, c, t, f, depth, st, s3);
    assert code == [code[0]] + [code[1], code[2], code[3]];
    RunCons(code[0], [code[1], code[2], code[3]], depth, st);
    RunThree(code[1], code[2], code[3], depth, s1, s2, s3);
  }

  lemma SelectFinal(d: string, cty: C.CType, c: bool, t: int, f: int, depth: nat, st: C.State, later: C.State)
    requires IsValueName(d) && d in st.vars.types && st.vars.types[d] == cty && (cty.I32? || cty.I64? || cty.U64?)
    requires later.mem == st.mem && SameElsewhere(st.vars, later.vars, "") && C.Fits(cty, t) && C.Fits(cty, f)
    requires Holds(later.vars, "mncs_t", C.U64, t % TWO_64) && Holds(later.vars, "mncs_f", C.U64, f % TWO_64)
    requires Holds(later.vars, "mncs_mask", C.U64, if c then TWO_64 - 1 else 0)
    ensures Assigns(st, C.Run([C.Assign(d, C.Cast(cty, BlendExpr()))], depth, later), d, if c then t else f)
  {
    hide Wrap, BlendExpr;
    var v := if c then t else f;
    EvalBlend(later.vars, c, t % TWO_64, f % TWO_64);
    EvalCast(later.vars, cty, BlendExpr(), C.CValue(C.U64, v % TWO_64));
    PatternBack(cty, v);
    C.ToTypeFixes(cty, v);
    RunAssign(d, C.Cast(cty, BlendExpr()), v, depth, later);
    AfterTemps(st, later, C.Run([C.Assign(d, C.Cast(cty, BlendExpr()))], depth, later), d, v);
  }
}
