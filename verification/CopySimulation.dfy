/** The branchless span copy: its guard traps exactly on a bad window, for all
    64-bit indices, and its lanes build exactly the spliced sequence. */
module CopySimulation {
  import opened Words
  import opened Mncs
  import opened Emit
  import opened Naming
  import opened IntegerLowering
  import opened Represent
  import opened Envelope
  import opened Relation
  import opened ScalarSimulation
  import opened ViewSimulation
  import opened SequenceSimulation
  import opened Discipline
  import C = CLang
  import opened Execution

  // ---------- Operands ----------

  /** The variables of a span copy and the cells they hold. */
  datatype Span = Span(into: string, at: string, s: string, start: string, n: string, bound: Bound,
                       a: int, b: int, len: int, dbase: int, cell: int)

  ghost predicate SpanVars(p: Span, vars: C.Locals) {
    && IsValueName(p.into) && IsValueName(p.at) && IsValueName(p.s) && IsValueName(p.start) && IsValueName(p.n)
    && Holds(vars, p.at, C.I64, CellOf(p.a, B64)) && 0 <= p.a < TWO_64
    && Holds(vars, p.start, C.I64, CellOf(p.b, B64)) && 0 <= p.b < TWO_64
    && Holds(vars, p.n, C.I64, CellOf(p.len, B64)) && 0 <= p.len < TWO_64
    && Holds(vars, p.into, C.U64, p.dbase) && 0 <= p.dbase <= C.ARENA_BYTES
    && Holds(vars, p.s, C.U64, p.cell) && 0 <= p.cell < TWO_64
  }

  predicate Apart(p: Span, d: string) { d != p.into && d != p.at && d != p.s && d != p.start && d != p.n }

  lemma SpanKept(p: Span, a: C.Locals, b: C.Locals, d: string)
    requires SpanVars(p, a) && SameElsewhere(a, b, d) && Apart(p, d)
    ensures SpanVars(p, b)
  {
    hide Wrap;
  }

  lemma IndexWord(vars: C.Locals, x: string, n: int)
    requires Holds(vars, x, C.I64, CellOf(n, B64)) && 0 <= n < TWO_64
    ensures C.Eval(AsU64(x), vars) == C.Ok(C.CValue(C.U64, n))
  {
    hide Wrap;
    EvalAsU64(vars, x);
    CellOfUnsigned(n, B64);
    SignedCell(n);
  }

  lemma SumWords(vars: C.Locals, e: C.Expr, f: C.Expr, a: int, b: int)
    requires C.Eval(e, vars) == C.Ok(C.CValue(C.U64, a)) && C.Eval(f, vars) == C.Ok(C.CValue(C.U64, b))
    requires 0 <= a < TWO_64 && 0 <= b < TWO_64
    ensures C.Eval(C.Bin(C.Add, e, f), vars) == C.Ok(C.CValue(C.U64, (a + b) % TWO_64))
    ensures C.Eval(C.Bin(C.Sub, e, f), vars) == C.Ok(C.CValue(C.U64, (a - b) % TWO_64))
  {
    hide Wrap, C.Eval;
    C.ToTypeFixes(C.U64, a);
    C.ToTypeFixes(C.U64, b);
    EvalBin(vars, C.Add, e, f, C.CValue(C.U64, a), C.CValue(C.U64, b));
    EvalBin(vars, C.Sub, e, f, C.CValue(C.U64, a), C.CValue(C.U64, b));
  }

  // ---------- The guard ----------

  lemma EvalEither(vars: C.Locals, e: C.Expr, f: C.Expr, a: bool, b: bool)
    requires C.Eval(e, vars) == C.Truth(a) && C.Eval(f, vars) == C.Truth(b)
    ensures C.Eval(C.Bin(C.LogicalOr, e, f), vars) == C.Truth(a || b)
  {
  }

  function GuardTest(p: Span, dstLength: nat): C.Expr {
    C.Bin(C.LogicalOr, C.Bin(C.LogicalOr, C.Bin(C.LogicalOr,
      C.Bin(C.Lt, C.Var("c_dend"), AsU64(p.at)),
      C.Bin(C.Gt, C.Var("c_dend"), NumULL(dstLength))),
      C.Bin(C.Lt, C.Var("c_send"), AsU64(p.start))),
      C.Bin(C.Gt, C.Var("c_send"), C.Cast(C.U64, LengthOf(p.s, p.bound))))
  }

  /** A wrapped end is below its start exactly when the addition overflowed. */
  lemma WrappedEnd(a: int, n: int)
    requires 0 <= a < TWO_64 && 0 <= n < TWO_64
    ensures (a + n) % TWO_64 < a <==> a + n >= TWO_64
    ensures a + n < TWO_64 ==> (a + n) % TWO_64 == a + n
  {
    if a + n < TWO_64 {
      ModUnique(a + n, TWO_64, 0, a + n);
    } else {
      ModUnique(a + n, TWO_64, 1, a + n - TWO_64);
    }
  }

  lemma EvalGuardTest(p: Span, vars: C.Locals, dstLength: nat, srcLength: nat)
    requires SpanVars(p, vars) && dstLength <= MAX_SEQUENCE_BOUND && srcLength < TWO_32
    requires C.Eval(LengthOf(p.s, p.bound), vars) == C.Ok(C.CValue(C.U64, srcLength))
    requires Holds(vars, "c_dend", C.U64, (p.a + p.len) % TWO_64) && Holds(vars, "c_send", C.U64, (p.b + p.len) % TWO_64)
    ensures C.Eval(GuardTest(p, dstLength), vars) == C.Truth(!WindowsValid(p.a, p.b, p.len, dstLength, srcLength))
  {
    hide Wrap, C.Eval, LengthOf;
    var dend, send := (p.a + p.len) % TWO_64, (p.b + p.len) % TWO_64;
    IndexWord(vars, p.at, p.a);
    IndexWord(vars, p.start, p.b);
    EvalVar(vars, "c_dend", C.U64, dend);
    EvalVar(vars, "c_send", C.U64, send);
    EvalLit(vars, dstLength, C.SuffixULL);
    EvalCast(vars, C.U64, LengthOf(p.s, p.bound), C.CValue(C.U64, srcLength));
    C.ToTypeFixes(C.U64, srcLength);
    var t0 := C.Bin(C.Lt, C.Var("c_dend"), AsU64(p.at));
    var t1 := C.Bin(C.Gt, C.Var("c_dend"), NumULL(dstLength));
    var t2 := C.Bin(C.Lt, C.Var("c_send"), AsU64(p.start));
    var t3 := C.Bin(C.Gt, C.Var("c_send"), C.Cast(C.U64, LengthOf(p.s, p.bound)));
    CompareU64(vars, C.Lt, C.Var("c_dend"), AsU64(p.at), dend, p.a);
    CompareU64(vars, C.Gt, C.Var("c_dend"), NumULL(dstLength), dend, dstLength);
    CompareU64(vars, C.Lt, C.Var("c_send"), AsU64(p.start), send, p.b);
    CompareU64(vars, C.Gt, C.Var("c_send"), C.Cast(C.U64, LengthOf(p.s, p.bound)), send, srcLength);
    EvalEither(vars, t0, t1, dend < p.a, dend > dstLength);
    EvalEither(vars, C.Bin(C.LogicalOr, t0, t1), t2, dend < p.a || dend > dstLength, send < p.b);
    EvalEither(vars, C.Bin(C.LogicalOr, C.Bin(C.LogicalOr, t0, t1), t2), t3, dend < p.a || dend > dstLength || send < p.b, send > srcLength);
    WrappedEnd(p.a, p.len);
    WrappedEnd(p.b, p.len);
  }

  /** The length of a source operand whose variable is untouched. */
  lemma EvalLengthLater(a: C.Locals, b: C.Locals, x: string, bound: Bound, c: int, n: int, d: string)
    requires Holds(a, x, C.U64, c) && 0 <= c < TWO_64 && SameElsewhere(a, b, d) && IsValueName(x) && x != d
    requires C.Eval(LengthOf(x, bound), a) == C.Ok(C.CValue(C.U64, n))
    ensures C.Eval(LengthOf(x, bound), b) == C.Ok(C.CValue(C.U64, n))
  {
    if bound.UpTo? {
      hide C.Eval;
      EvalHighWord(a, x, c);
      EvalHighWord(b, x, c);
    }
  }

  /** For all 64-bit indices the guard traps exactly when a window is out of range. */
  lemma CopyGuardExact(p: Span, dstLength: nat, srcLength: nat, depth: nat, st: C.State)
    requires SpanVars(p, st.vars) && dstLength <= MAX_SEQUENCE_BOUND && srcLength < TWO_32
    requires C.Eval(LengthOf(p.s, p.bound), st.vars) == C.Ok(C.CValue(C.U64, srcLength))
    ensures var f := C.Run(CopyGuard(p.at, p.start, p.n, dstLength, LengthOf(p.s, p.bound)), depth, st);
            if WindowsValid(p.a, p.b, p.len, dstLength, srcLength)
            then f.Next? && f.st.mem == st.mem && SameElsewhere(st.vars, f.st.vars, "")
            else Trapped(st, f)
  {
    hide Wrap, C.Eval, C.Run, LengthOf, GuardTest;
    var dend, send := (p.a + p.len) % TWO_64, (p.b + p.len) % TWO_64;
    var code := CopyGuard(p.at, p.start, p.n, dstLength, LengthOf(p.s, p.bound));
    var s1 := WithTemp(st, C.U64, "c_dend", dend);
    var s2 := WithTemp(s1, C.U64, "c_send", send);
    TempsOnly(st, C.U64, "c_dend", dend);
    TempsOnly(s1, C.U64, "c_send", send);
    SameTrans(st.vars, s1.vars, s2.vars);
    IndexWord(st.vars, p.at, p.a);
    IndexWord(st.vars, p.n, p.len);
    SumWords(st.vars, AsU64(p.at), AsU64(p.n), p.a, p.len);
    RunDeclareU64("c_dend", code[0].e, dend, depth, st);
    SpanKept(p, st.vars, s1.vars, "");
    IndexWord(s1.vars, p.start, p.b);
    IndexWord(s1.vars, p.n, p.len);
    SumWords(s1.vars, AsU64(p.start), AsU64(p.n), p.b, p.len);
    RunDeclareU64("c_send", code[1].e, send, depth, s1);
    SpanKept(p, st.vars, s2.vars, "");
    EvalLengthLater(st.vars, s2.vars, p.s, p.bound, p.cell, srcLength, "");
    EvalGuardTest(p, s2.vars, dstLength, srcLength);
    GuardShape(p, dstLength);
    RunTrapIf(GuardTest(p, dstLength), depth, s2);
    RunThree(code[0], code[1], code[2], depth, st, s1, s2);
  }

  lemma GuardShape(p: Span, dstLength: nat)
    ensures var code := CopyGuard(p.at, p.start, p.n, dstLength, LengthOf(p.s, p.bound));
            code == [code[0], code[1], TrapIf(GuardTest(p, dstLength))]
  {
  }

  // ---------- One lane ----------

  lemma BinaryTyped(op: C.BinaryOp, x: C.CValue, y: C.CValue)
    requires C.Binary(op, x, y).Ok? && !op.LogicalAnd? && !op.LogicalOr?
    ensures C.Binary(op, x, y).v.ty ==
      if C.IsComparison(op) then C.I32
      else if op.Shl? || op.Shr? then C.Promote(x.ty)
      else C.Common(x.ty, y.ty)
  {
    hide Wrap, Bitwise, Pow2, TruncDiv, TruncRem, C.ToType, C.Fits, C.Promote, C.Common;
  }

  lemma UnaryTyped(e: C.Expr, x: C.CValue)
    requires e.Neg? || e.BitNot? || e.LogicalNot? || e.Cast?
    requires C.Unary(e, x).Ok?
    ensures C.Unary(e, x).v.ty == if e.LogicalNot? then C.I32 else if e.Cast? then e.ty else C.Promote(x.ty)
  {
    hide C.ToType, C.Fits, C.Promote;
  }

  /** An expression's value has the expression's static type. */
  lemma {:induction false} EvalTyped(e: C.Expr, vars: C.Locals)
    requires C.Eval(e, vars).Ok?
    ensures C.Eval(e, vars).v.ty == C.TypeOf(e, vars.types)
    decreases e
  {
    hide C.Binary, C.Unary, C.ToType, C.Common, C.Promote;
    match e
    case Var(_) =>
    case Lit(_, _) =>
    case Cond(_, _, _) =>
    case Bin(op, a, b) => EvalTypedBin(e, vars);
    case _ =>
      UnaryTyped(e, C.Eval(e.e, vars).v);
      EvalTyped(e.e, vars);
  }

  lemma {:induction false} EvalTypedBin(e: C.Expr, vars: C.Locals)
    requires C.Eval(e, vars).Ok? && e.Bin?
    ensures C.Eval(e, vars).v.ty == C.TypeOf(e, vars.types)
    decreases e, 0
  {
    hide C.Binary, C.Unary, C.ToType, C.Common, C.Promote;
    if !e.op.LogicalAnd? && !e.op.LogicalOr? {
      EvalTyped(e.left, vars);
      EvalTyped(e.right, vars);
      BinaryTyped(e.op, C.Eval(e.left, vars).v, C.Eval(e.right, vars).v);
    }
  }

  lemma EvalPick(vars: C.Locals, c: C.Expr, e: C.Expr, f: C.Expr, test: bool, t: C.CType, x: int, y: int)
    requires C.Eval(c, vars).Ok? && (C.Eval(c, vars).v.n != 0 <==> test)
    requires C.Eval(e, vars) == C.Ok(C.CValue(t, x)) && C.Eval(f, vars) == C.Ok(C.CValue(t, y))
    requires C.Promote(t) == t && C.Fits(t, x) && C.Fits(t, y)
    ensures C.Eval(C.Cond(c, e, f), vars) == C.Ok(C.CValue(t, if test then x else y))
  {
    hide Wrap;
    EvalTyped(e, vars);
    EvalTyped(f, vars);
    C.ToTypeFixes(t, if test then x else y);
  }

  lemma AndBits(x: nat, y: nat)
    requires x < 2 && y < 2
    ensures Bitwise(BitAnd, x, y, 32) == x * y
  {
    hide Bitwise;
    Pow2Values();
    assert Pow2(1) == 2;
    if y == 0 {
      BitwiseZero(BitAnd, x, 32);
    } else {
      AndMask(x, 32, 1);
    }
  }

  lemma AndTruth(vars: C.Locals, e: C.Expr, f: C.Expr, a: bool, b: bool)
    requires C.Eval(e, vars) == C.Truth(a) && C.Eval(f, vars) == C.Truth(b)
    ensures C.Eval(C.Bin(C.And, e, f), vars) == C.Truth(a && b)
  {
    hide Wrap, C.Eval, Bitwise;
    var x, y := if a then 1 else 0, if b then 1 else 0;
    C.ToTypeFixes(C.I32, x);
    C.ToTypeFixes(C.I32, y);
    ModUnique(x, TWO_32, 0, x);
    ModUnique(y, TWO_32, 0, y);
    AndBits(x, y);
    EvalBin(vars, C.And, e, f, C.CValue(C.I32, x), C.CValue(C.I32, y));
    C.ToTypeFixes(C.I32, if a && b then 1 else 0);
  }

  predicate Inside(p: Span, k: int) { p.a <= k < p.a + p.len }

  function LaneOffset(p: Span, k: int): int { (k - p.a) % TWO_64 }

  lemma LaneInside(p: Span, k: nat)
    requires 0 <= p.a < TWO_64 && 0 <= p.len < TWO_64 && k < TWO_32
    ensures p.a <= k && LaneOffset(p, k) < p.len <==> Inside(p, k)
    ensures Inside(p, k) ==> LaneOffset(p, k) == k - p.a
    ensures 0 <= LaneOffset(p, k) < TWO_64
  {
    if p.a <= k {
      ModUnique(k - p.a, TWO_64, 0, k - p.a);
    }
  }

  function SourceAddress(p: Span): int { BaseAddress(p.bound, p.cell) }

  function LaneSource(p: Span, k: int): int {
    if Inside(p, k) then SourceAddress(p) + 8 * (p.b + k - p.a) else p.dbase + 8 * k
  }

  lemma EvalInside(p: Span, k: nat, vars: C.Locals)
    requires SpanVars(p, vars) && k < MAX_SEQUENCE_BOUND
    requires Holds(vars, "c_k", C.U64, LaneOffset(p, k))
    ensures C.Eval(C.Cond(C.Bin(C.And, C.Bin(C.Le, AsU64(p.at), NumULL(k)), C.Bin(C.Lt, C.Var("c_k"), AsU64(p.n))), NumU(1), NumU(0)), vars)
         == C.Ok(C.CValue(C.U32, if Inside(p, k) then 1 else 0))
  {
    hide Wrap, C.Eval;
    IndexWord(vars, p.at, p.a);
    IndexWord(vars, p.n, p.len);
    EvalLit(vars, k, C.SuffixULL);
    EvalVar(vars, "c_k", C.U64, LaneOffset(p, k));
    LaneInside(p, k);
    var low, high := C.Bin(C.Le, AsU64(p.at), NumULL(k)), C.Bin(C.Lt, C.Var("c_k"), AsU64(p.n));
    CompareU64(vars, C.Le, AsU64(p.at), NumULL(k), p.a, k);
    CompareU64(vars, C.Lt, C.Var("c_k"), AsU64(p.n), LaneOffset(p, k), p.len);
    AndTruth(vars, low, high, p.a <= k, LaneOffset(p, k) < p.len);
    EvalLit(vars, 1, C.SuffixU);
    EvalLit(vars, 0, C.SuffixU);
    EvalPick(vars, C.Bin(C.And, low, high), NumU(1), NumU(0), Inside(p, k), C.U32, 1, 0);
  }

  function InWindowAddress(p: Span): C.Expr {
    C.Bin(C.Add, BaseOf(p.s, p.bound), C.Bin(C.Mul, C.Bin(C.Add, AsU64(p.start), C.Var("c_k")), NumU(8)))
  }

  lemma MulWords(vars: C.Locals, e: C.Expr, n: int)
    requires C.Eval(e, vars) == C.Ok(C.CValue(C.U64, n)) && 0 <= n < TWO_64
    ensures C.Eval(C.Bin(C.Mul, e, NumU(8)), vars) == C.Ok(C.CValue(C.U64, (n * 8) % TWO_64))
  {
    hide Wrap, C.Eval;
    EvalLit(vars, 8, C.SuffixU);
    C.ToTypeFixes(C.U64, n);
    C.ToTypeFixes(C.U64, 8);
    EvalBin(vars, C.Mul, e, NumU(8), C.CValue(C.U64, n), C.CValue(C.U32, 8));
  }

  predicate InBounds(p: Span) { p.b + p.len <= MAX_SEQUENCE_BOUND && SourceAddress(p) <= C.ARENA_BYTES }

  /** The source address: exact inside the window, some word outside it. */
  lemma EvalWindowAddress(p: Span, k: nat, vars: C.Locals)
    requires SpanVars(p, vars) && k < MAX_SEQUENCE_BOUND
    requires Holds(vars, "c_k", C.U64, LaneOffset(p, k))
    ensures exists x :: 0 <= x < TWO_64 && C.Eval(InWindowAddress(p), vars) == C.Ok(C.CValue(C.U64, x))
              && (Inside(p, k) && InBounds(p) ==> x == LaneSource(p, k))
  {
    hide Wrap, C.Eval, BaseOf;
    LaneInside(p, k);
    IndexWord(vars, p.start, p.b);
    EvalVar(vars, "c_k", C.U64, LaneOffset(p, k));
    SumWords(vars, AsU64(p.start), C.Var("c_k"), p.b, LaneOffset(p, k));
    var i := (p.b + LaneOffset(p, k)) % TWO_64;
    MulWords(vars, C.Bin(C.Add, AsU64(p.start), C.Var("c_k")), i);
    EvalBase(vars, p.s, p.bound, p.cell);
    var off := (i * 8) % TWO_64;
    SumWords(vars, BaseOf(p.s, p.bound), C.Bin(C.Mul, C.Bin(C.Add, AsU64(p.start), C.Var("c_k")), NumU(8)), SourceAddress(p), off);
    if Inside(p, k) && InBounds(p) {
      ModUnique(p.b + k - p.a, TWO_64, 0, i);
      ModUnique(i * 8, TWO_64, 0, off);
      ModUnique(SourceAddress(p) + off, TWO_64, 0, SourceAddress(p) + off);
    }
  }

  function OwnAddress(p: Span, k: nat): C.Expr { C.Bin(C.Add, AsU64(p.into), NumU(k * 8)) }

  lemma EvalOwnAddress(p: Span, k: nat, vars: C.Locals)
    requires SpanVars(p, vars) && k < MAX_SEQUENCE_BOUND
    ensures C.Eval(OwnAddress(p, k), vars) == C.Ok(C.CValue(C.U64, p.dbase + 8 * k))
  {
    hide Wrap, C.Eval;
    EvalAsU64(vars, p.into);
    ModUnique(p.dbase, TWO_64, 0, p.dbase);
    EvalLit(vars, k * 8, C.SuffixU);
    AddU64(vars, AsU64(p.into), NumU(k * 8), C.CValue(C.U64, p.dbase), C.CValue(C.U32, k * 8));
  }

  lemma EvalSourceAddress(p: Span, k: nat, vars: C.Locals)
    requires SpanVars(p, vars) && k < MAX_SEQUENCE_BOUND && InBounds(p)
    requires Holds(vars, "c_k", C.U64, LaneOffset(p, k)) && Holds(vars, "c_in", C.U64, if Inside(p, k) then 1 else 0)
    ensures C.Eval(C.Cond(C.Var("c_in"), InWindowAddress(p), OwnAddress(p, k)), vars) == C.Ok(C.CValue(C.U64, LaneSource(p, k)))
  {
    hide Wrap, C.Eval, InWindowAddress, OwnAddress;
    EvalWindowAddress(p, k, vars);
    var x :| 0 <= x < TWO_64 && C.Eval(InWindowAddress(p), vars) == C.Ok(C.CValue(C.U64, x))
              && (Inside(p, k) && InBounds(p) ==> x == LaneSource(p, k));
    EvalOwnAddress(p, k, vars);
    EvalVar(vars, "c_in", C.U64, if Inside(p, k) then 1 else 0);
    EvalPick(vars, C.Var("c_in"), InWindowAddress(p), OwnAddress(p, k), Inside(p, k), C.U64, x, p.dbase + 8 * k);
  }

  /** `slot x = 0; x = mncs_slot_load(mncs_arena, at);` */
  lemma RunSlotTemp(x: string, w: C.Width, at: C.Expr, a: int, depth: nat, st: C.State)
    requires C.Eval(at, WithTemp(st, C.SlotType(w), x, 0).vars) == C.Ok(C.CValue(C.U64, a)) && InArena(w, a)
    requires !st.mem.failed
    ensures C.Run([C.Declare(C.SlotType(w), x, Num(0)), C.Load(x, C.SlotType(w), w, at)], depth, st)
         == C.Next(WithTemp(st, C.SlotType(w), x, C.SlotAt(st.mem, w, a)))
  {
    hide Wrap, C.Eval, C.Run, C.SlotAt;
    var t := C.SlotType(w);
    var s1 := WithTemp(st, t, x, 0);
    EvalLit(st.vars, 0, C.NoSuffix);
    C.ToTypeFixes(t, 0);
    RunDeclare(t, x, Num(0), 0, depth, st);
    C.ToTypeFixes(C.U64, a);
    SlotTyped(st.mem, w, a);
    RunOne(C.Load(x, t, w, at), depth, s1);
    TempTwice(st, t, x, 0, C.SlotAt(st.mem, w, a));
    RunCons(C.Declare(t, x, Num(0)), [C.Load(x, t, w, at)], depth, st);
    assert [C.Declare(t, x, Num(0))] + [C.Load(x, t, w, at)] == [C.Declare(t, x, Num(0)), C.Load(x, t, w, at)];
  }

  lemma TempTwice(st: C.State, t: C.CType, x: string, m: int, n: int)
    ensures var s1 := WithTemp(st, t, x, m);
            s1.(vars := s1.vars.(values := s1.vars.values[x := n])) == WithTemp(st, t, x, n)
  {
  }

  lemma SlotTyped(m: C.Memory, w: C.Width, at: nat)
    ensures C.Fits(C.SlotType(w), C.SlotAt(m, w, at)) && C.ToType(C.SlotType(w), C.SlotAt(m, w, at)) == C.SlotAt(m, w, at)
  {
    hide Wrap, C.SlotAt;
    SlotBound(m, w, at);
    Pow2Values();
    C.ToTypeFixes(C.SlotType(w), C.SlotAt(m, w, at));
  }

  /** The three address temporaries of a lane. */
  function LaneTemps(p: Span, k: nat, st: C.State): C.State {
    WithTemp(WithTemp(WithTemp(st, C.U64, "c_k", LaneOffset(p, k)), C.U64, "c_in", if Inside(p, k) then 1 else 0),
             C.U64, "c_saddr", LaneSource(p, k))
  }

  lemma RunLaneTemps(p: Span, k: nat, d: string, w: SlotWidth, depth: nat, st: C.State)
    requires SpanVars(p, st.vars) && k < MAX_SEQUENCE_BOUND && InBounds(p)
    ensures var code := SpanLane(d, p.into, p.at, BaseOf(p.s, p.bound), p.start, p.n, w, k);
            C.Run([code[0], code[1], code[2]], depth, st) == C.Next(LaneTemps(p, k, st))
    ensures SpanVars(p, LaneTemps(p, k, st).vars) && SameElsewhere(st.vars, LaneTemps(p, k, st).vars, "")
  {
    hide Wrap, C.Eval, C.Run;
    var code := SpanLane(d, p.into, p.at, BaseOf(p.s, p.bound), p.start, p.n, w, k);
    var off, inside, from := LaneOffset(p, k), if Inside(p, k) then 1 else 0, LaneSource(p, k);
    var s1 := WithTemp(st, C.U64, "c_k", off);
    var s2 := WithTemp(s1, C.U64, "c_in", inside);
    var s3 := WithTemp(s2, C.U64, "c_saddr", from);
    TempsOnly(st, C.U64, "c_k", off);
    TempsOnly(s1, C.U64, "c_in", inside);
    TempsOnly(s2, C.U64, "c_saddr", from);
    SpanKept(p, st.vars, s1.vars, "");
    SpanKept(p, s1.vars, s2.vars, "");
    SpanKept(p, s2.vars, s3.vars, "");
    SameTrans(st.vars, s1.vars, s2.vars);
    SameTrans(st.vars, s2.vars, s3.vars);
    LaneInside(p, k);
    IndexWord(st.vars, p.at, p.a);
    EvalLit(st.vars, k, C.SuffixULL);
    SumWords(st.vars, NumULL(k), AsU64(p.at), k, p.a);
    RunDeclareU64("c_k", code[0].e, off, depth, st);
    EvalInside(p, k, s1.vars);
    C.ToTypeFixes(C.U64, inside);
    RunDeclare(C.U64, "c_in", code[1].e, inside, depth, s1);
    EvalSourceAddress(p, k, s2.vars);
    RunDeclareU64("c_saddr", code[2].e, from, depth, s2);
    RunThree(code[0], code[1], code[2], depth, st, s1, s2);
  }

  /** What a lane stores: the source word inside the window, its own word outside. */
  function LaneWord(p: Span, k: nat, w: C.Width, m: C.Memory): int
    requires SourceAddress(p) >= 0 && p.b >= 0 && p.dbase >= 0
  {
    C.SlotAt(m, w, LaneSource(p, k))
  }

  predicate LaneReads(p: Span, k: nat, w: C.Width) { InArena(w, LaneSource(p, k)) && InArena(w, p.dbase + 8 * k) }

  lemma RunSpanLane(p: Span, k: nat, d: string, w: SlotWidth, base: int, depth: nat, st: C.State)
    requires SpanVars(p, st.vars) && k < MAX_SEQUENCE_BOUND && InBounds(p) && LaneReads(p, k, CWidth(w))
    requires SourceAddress(p) >= 0
    requires Holds(st.vars, d, C.U64, base) && 0 <= base <= C.ARENA_BYTES && IsValueName(d) && !st.mem.failed
    ensures var f := C.Run(SpanLane(d, p.into, p.at, BaseOf(p.s, p.bound), p.start, p.n, w, k), depth, st);
            && f.Next? && SameElsewhere(st.vars, f.st.vars, "")
            && f.st.mem == C.SlotStore(st.mem, CWidth(w), base + 8 * k, LaneWord(p, k, CWidth(w), st.mem))
  {
    hide Wrap, C.Eval, C.Run, C.SlotAt, C.SlotStore, LaneSource, LaneTemps;
    var code := SpanLane(d, p.into, p.at, BaseOf(p.s, p.bound), p.start, p.n, w, k);
    var s3 := LaneTemps(p, k, st);
    RunLaneTemps(p, k, d, w, depth, st);
    assert code == [code[0], code[1], code[2]] + code[3..];
    RunAppend([code[0], code[1], code[2]], code[3..], depth, st);
    LaneTempsHold(p, k, st);
    RunLaneTail(p, k, d, w, base, depth, s3);
    assert code[3..] == LaneTail(d, p.into, w, k);
    SameTrans(st.vars, s3.vars, C.Run(code[3..], depth, s3).st.vars);
  }

  lemma LaneTempsHold(p: Span, k: nat, st: C.State)
    ensures var s3 := LaneTemps(p, k, st);
            && s3.mem == st.mem
            && Holds(s3.vars, "c_in", C.U64, if Inside(p, k) then 1 else 0)
            && Holds(s3.vars, "c_saddr", C.U64, LaneSource(p, k))
  {
  }

  function LaneTail(d: string, into: string, w: SlotWidth, lane: nat): seq<C.Stmt> {
    var slot := C.SlotType(CWidth(w));
    [ C.Declare(slot, "c_s", Num(0)),
      C.Load("c_s", slot, CWidth(w), C.Var("c_saddr")),
      C.Declare(slot, "c_d", Num(0)),
      C.Load("c_d", slot, CWidth(w), C.Bin(C.Add, AsU64(into), NumU(lane * 8))),
      LaneStore(d, w, lane) ]
  }

  function LaneStore(d: string, w: SlotWidth, lane: nat): C.Stmt {
    C.Store(CWidth(w), LaneAddress(d, lane), C.Cond(C.Var("c_in"), C.Var("c_s"), C.Var("c_d")))
  }

  /** The two slots a lane reads. */
  function LaneSlots(p: Span, k: nat, w: C.Width, s3: C.State): C.State
    requires SourceAddress(p) >= 0 && p.b >= 0 && p.dbase >= 0
  {
    WithTemp(WithTemp(s3, C.SlotType(w), "c_s", C.SlotAt(s3.mem, w, LaneSource(p, k))),
             C.SlotType(w), "c_d", C.SlotAt(s3.mem, w, p.dbase + 8 * k))
  }

  lemma RunLaneSlots(p: Span, k: nat, d: string, w: SlotWidth, depth: nat, s3: C.State)
    requires SpanVars(p, s3.vars) && k < MAX_SEQUENCE_BOUND && LaneReads(p, k, CWidth(w))
    requires SourceAddress(p) >= 0 && Holds(s3.vars, "c_saddr", C.U64, LaneSource(p, k)) && !s3.mem.failed
    ensures var code := LaneTail(d, p.into, w, k);
            C.Run([code[0], code[1]] + [code[2], code[3]], depth, s3) == C.Next(LaneSlots(p, k, CWidth(w), s3))
    ensures SameElsewhere(s3.vars, LaneSlots(p, k, CWidth(w), s3).vars, "")
  {
    hide Wrap, C.Eval, C.Run, C.SlotAt, C.SlotStore;
    var slot, from, own := C.SlotType(CWidth(w)), LaneSource(p, k), p.dbase + 8 * k;
    var code := LaneTail(d, p.into, w, k);
    var x, y := C.SlotAt(s3.mem, CWidth(w), from), C.SlotAt(s3.mem, CWidth(w), own);
    var s4 := WithTemp(s3, slot, "c_s", x);
    TempsOnly(s3, slot, "c_s", x);
    TempsOnly(s4, slot, "c_d", y);
    TempsOnly(s4, slot, "c_d", 0);
    SameTrans(s3.vars, s4.vars, WithTemp(s4, slot, "c_d", y).vars);
    EvalVar(WithTemp(s3, slot, "c_s", 0).vars, "c_saddr", C.U64, from);
    RunSlotTemp("c_s", CWidth(w), C.Var("c_saddr"), from, depth, s3);
    SpanKept(p, s3.vars, s4.vars, "");
    SpanKept(p, s4.vars, WithTemp(s4, slot, "c_d", 0).vars, "");
    EvalOwnAddress(p, k, WithTemp(s4, slot, "c_d", 0).vars);
    RunSlotTemp("c_d", CWidth(w), OwnAddress(p, k), own, depth, s4);
    RunAppend([code[0], code[1]], [code[2], code[3]], depth, s3);
  }

  lemma LaneSlotsHold(p: Span, k: nat, w: C.Width, s3: C.State)
    requires SourceAddress(p) >= 0 && p.b >= 0 && p.dbase >= 0
    ensures var s5 := LaneSlots(p, k, w, s3);
            && s5.mem == s3.mem
            && Holds(s5.vars, "c_s", C.SlotType(w), C.SlotAt(s3.mem, w, LaneSource(p, k)))
            && Holds(s5.vars, "c_d", C.SlotType(w), C.SlotAt(s3.mem, w, p.dbase + 8 * k))
            && (forall x | x != "c_s" && x != "c_d" :: x in s3.vars.types && x in s3.vars.values ==>
                  Holds(s5.vars, x, s3.vars.types[x], s3.vars.values[x]))
  {
    hide C.SlotAt, LaneSource;
  }

  lemma RunLaneTail(p: Span, k: nat, d: string, w: SlotWidth, base: int, depth: nat, s3: C.State)
    requires SpanVars(p, s3.vars) && k < MAX_SEQUENCE_BOUND && LaneReads(p, k, CWidth(w))
    requires SourceAddress(p) >= 0
    requires Holds(s3.vars, "c_in", C.U64, if Inside(p, k) then 1 else 0) && Holds(s3.vars, "c_saddr", C.U64, LaneSource(p, k))
    requires Holds(s3.vars, d, C.U64, base) && 0 <= base <= C.ARENA_BYTES && IsValueName(d) && !s3.mem.failed
    ensures var f := C.Run(LaneTail(d, p.into, w, k), depth, s3);
            && f.Next? && SameElsewhere(s3.vars, f.st.vars, "")
            && f.st.mem == C.SlotStore(s3.mem, CWidth(w), base + 8 * k, LaneWord(p, k, CWidth(w), s3.mem))
  {
    hide Wrap, C.Eval, C.Run, C.SlotAt, C.SlotStore, LaneSlots;
    var from, own := LaneSource(p, k), p.dbase + 8 * k;
    var code := LaneTail(d, p.into, w, k);
    SlotTyped(s3.mem, CWidth(w), from);
    SlotTyped(s3.mem, CWidth(w), own);
    RunLaneSlots(p, k, d, w, depth, s3);
    LaneSlotsHold(p, k, CWidth(w), s3);
    assert code == ([code[0], code[1]] + [code[2], code[3]]) + [code[4]];
    RunAppend([code[0], code[1]] + [code[2], code[3]], [code[4]], depth, s3);
    RunLaneStore(p, k, d, w, base, C.SlotAt(s3.mem, CWidth(w), from), C.SlotAt(s3.mem, CWidth(w), own), depth, LaneSlots(p, k, CWidth(w), s3));
  }

  lemma RunLaneStore(p: Span, k: nat, d: string, w: SlotWidth, base: int, x: int, y: int, depth: nat, s5: C.State)
    requires k < MAX_SEQUENCE_BOUND && Holds(s5.vars, "c_in", C.U64, if Inside(p, k) then 1 else 0)
    requires Holds(s5.vars, "c_s", C.SlotType(CWidth(w)), x) && C.Fits(C.SlotType(CWidth(w)), x)
    requires Holds(s5.vars, "c_d", C.SlotType(CWidth(w)), y) && C.Fits(C.SlotType(CWidth(w)), y)
    requires Holds(s5.vars, d, C.U64, base) && 0 <= base <= C.ARENA_BYTES
    ensures C.Run([LaneStore(d, w, k)], depth, s5)
         == C.Next(s5.(mem := C.SlotStore(s5.mem, CWidth(w), base + 8 * k, if Inside(p, k) then x else y)))
  {
    hide Wrap, C.Eval, C.Run, C.SlotStore;
    var slot, v := C.SlotType(CWidth(w)), if Inside(p, k) then x else y;
    EvalVar(s5.vars, "c_in", C.U64, if Inside(p, k) then 1 else 0);
    EvalVar(s5.vars, "c_s", slot, x);
    EvalVar(s5.vars, "c_d", slot, y);
    EvalPick(s5.vars, C.Var("c_in"), C.Var("c_s"), C.Var("c_d"), Inside(p, k), slot, x, y);
    EvalLane(s5.vars, d, base, k);
    C.ToTypeFixes(slot, v);
    RunStore(CWidth(w), LaneAddress(d, k), C.Cond(C.Var("c_in"), C.Var("c_s"), C.Var("c_d")), base + 8 * k, C.CValue(slot, v), depth, s5);
  }

  // ---------- All lanes ----------

  /** The words of the spliced sequence. */
  function SpliceWords(dst: seq<int>, a: nat, src: seq<int>, b: nat, len: nat): (r: seq<int>)
    requires a + len <= |dst| && b + len <= |src|
    ensures |r| == |dst|
    ensures forall k | 0 <= k < |dst| :: r[k] == if a <= k < a + len then src[b + k - a] else dst[k]
  {
    dst[..a] + src[b..b + len] + dst[a + len..]
  }

  /** Both operands laid out below the bump, windows in range. */
  ghost predicate Sources(p: Span, w: C.Width, dst: seq<int>, src: seq<int>, m: C.Memory) {
    && Laid(m, w, p.dbase, dst) && AllWords(w, dst) && p.dbase + 8 * |dst| <= m.bump
    && Laid(m, w, SourceAddress(p), src) && AllWords(w, src) && SourceAddress(p) + 8 * |src| <= m.bump
    && |dst| <= MAX_SEQUENCE_BOUND && |src| <= MAX_SEQUENCE_BOUND
    && WindowsValid(p.a, p.b, p.len, |dst|, |src|)
  }

  /** What one lane reads is the spliced word, wherever the operands overlap. */
  lemma LaneReadsWord(p: Span, w: C.Width, dst: seq<int>, src: seq<int>, m: C.Memory, later: C.Memory, k: nat)
    requires Sources(p, w, dst, src, m) && Extends(m, later) && k < |dst|
    ensures InBounds(p) && LaneReads(p, k, w) && SourceAddress(p) >= 0
    ensures LaneWord(p, k, w, later) == SpliceWords(dst, p.a, src, p.b, p.len)[k]
  {
    hide C.SlotAt, Pow2;
    if Inside(p, k) {
      SlotKept(m, later, w, SourceAddress(p) + 8 * (p.b + k - p.a));
    } else {
      SlotKept(m, later, w, p.dbase + 8 * k);
    }
  }

  /** One lane, as a step of the construction. */
  lemma StepLane(p: Span, d: string, w: SlotWidth, base: int, dst: seq<int>, src: seq<int>, k: nat, st0: C.State, depth: nat, st: C.State)
    requires Sources(p, CWidth(w), dst, src, st0.mem) && k < |dst| && Apart(p, d) && IsValueName(d)
    requires SpanVars(p, st0.vars)
    requires Building(st0, C.Next(st), d, CWidth(w), base, |dst|, SpliceWords(dst, p.a, src, p.b, p.len)[..k])
    ensures Building(st0, C.Run(SpanLane(d, p.into, p.at, BaseOf(p.s, p.bound), p.start, p.n, w, k), depth, st),
                     d, CWidth(w), base, |dst|, SpliceWords(dst, p.a, src, p.b, p.len)[..k + 1])
  {
    hide C.Eval, C.Run, Wrap, Pow2, C.SlotStore, C.SlotAt, SpanLane, SpanVars, Inside, LaneWord;
    var words := SpliceWords(dst, p.a, src, p.b, p.len);
    SpanKept(p, st0.vars, st.vars, d);
    LaneReadsWord(p, CWidth(w), dst, src, st0.mem, st.mem, k);
    RunSpanLane(p, k, d, w, base, depth, st);
    WordBound(p, CWidth(w), dst, src, st0.mem, k);
    FillNext(st0.mem, st.mem, CWidth(w), base, |dst|, words[..k], words[k]);
    assert words[..k] + [words[k]] == words[..k + 1];
  }

  lemma WordBound(p: Span, w: C.Width, dst: seq<int>, src: seq<int>, m: C.Memory, k: nat)
    requires Sources(p, w, dst, src, m) && k < |dst|
    ensures 0 <= SpliceWords(dst, p.a, src, p.b, p.len)[k] < Pow2(8 * C.SlotBytes(w))
  {
    hide Pow2, Laid;
  }

  lemma {:induction false} RunSpans(p: Span, d: string, w: SlotWidth, base: int, dst: seq<int>, src: seq<int>, k: nat, st0: C.State, depth: nat, st: C.State)
    requires Sources(p, CWidth(w), dst, src, st0.mem) && k <= |dst| && Apart(p, d) && IsValueName(d)
    requires SpanVars(p, st0.vars)
    requires Building(st0, C.Next(st), d, CWidth(w), base, |dst|, SpliceWords(dst, p.a, src, p.b, p.len)[..k])
    ensures Building(st0, C.Run(SpanLanes(d, p.into, p.at, BaseOf(p.s, p.bound), p.start, p.n, w, k, |dst|), depth, st),
                     d, CWidth(w), base, |dst|, SpliceWords(dst, p.a, src, p.b, p.len))
    decreases |dst| - k
  {
    hide C.Eval, C.Run, Wrap, Pow2, SpanLane, SpanVars, SpliceWords, Filling;
    var words := SpliceWords(dst, p.a, src, p.b, p.len);
    if k == |dst| {
      assert words[..k] == words;
      RunNone(depth, st);
    } else {
      StepLane(p, d, w, base, dst, src, k, st0, depth, st);
      var lane := SpanLane(d, p.into, p.at, BaseOf(p.s, p.bound), p.start, p.n, w, k);
      RunSpans(p, d, w, base, dst, src, k + 1, st0, depth, C.Run(lane, depth, st).st);
      RunAppend(lane, SpanLanes(d, p.into, p.at, BaseOf(p.s, p.bound), p.start, p.n, w, k + 1, |dst|), depth, st);
    }
  }

  // ---------- The instruction ----------

  lemma RawsSplice(into: seq<Value>, from: seq<Value>, e: Ty, dst: seq<int>, src: seq<int>, a: nat, b: nat, len: nat, m: C.Memory)
    requires Raws(into, e, dst, m) && Raws(from, e, src, m) && a + len <= |into| && b + len <= |from|
    ensures Raws(Splice(into, a, from, b, len), e, SpliceWords(dst, a, src, b, len), m)
  {
    hide Pow2, Wrap;
    var es, words := Splice(into, a, from, b, len), SpliceWords(dst, a, src, b, len);
    forall k | 0 <= k < |es|
      ensures 0 <= words[k] < Pow2(8 * C.SlotBytes(WidthFor(e))) && Rep(es[k], e, C.ToType(CTypeOf(e), words[k]), m)
    {
      if a <= k < a + len {
        assert es[k] == from[b + k - a];
      } else {
        assert es[k] == into[k];
      }
    }
  }

  /** The operands of a copy instruction, gathered. */
  function SpanOf(fr: Frame, inst: Inst, env: Env, st: C.State): Span
    requires inst.SequenceCopy? && IsInt(env, inst.dstAt) && IsInt(env, inst.srcAt) && IsInt(env, inst.len)
  {
    Span(X(fr, inst.destination), X(fr, inst.dstAt), X(fr, inst.source), X(fr, inst.srcAt), X(fr, inst.len), inst.srcBound,
         env[inst.dstAt].n, env[inst.srcAt].n, env[inst.len].n, Carried(fr, inst.destination, st), Carried(fr, inst.source, st))
  }

  lemma CopyOperands(m: Module, fr: Frame, inst: Inst, env: Env, st: C.State)
    requires Ready(m, fr, inst, env, st) && inst.SequenceCopy? && inst.dest.id !in Uses(inst)
    ensures IsInt(env, inst.dstAt) && IsInt(env, inst.srcAt) && IsInt(env, inst.len) && IsSeq(env, inst.destination) && IsSeq(env, inst.source)
    ensures var p := SpanOf(fr, inst, env, st);
            && SpanVars(p, st.vars) && Apart(p, fr.names[inst.dest.id])
            && Slots(env[inst.destination].elems, inst.dest.ty.elem, p.dbase, st.mem)
            && Slots(env[inst.source].elems, inst.dest.ty.elem, SourceAddress(p), st.mem)
            && C.Eval(LengthOf(p.s, p.bound), st.vars) == C.Ok(C.CValue(C.U64, |env[inst.source].elems|))
    ensures |env[inst.destination].elems| == inst.dstLength <= MAX_SEQUENCE_BOUND && |env[inst.source].elems| <= MAX_SEQUENCE_BOUND
  {
    hide Wrap, C.Eval, LengthOf, Slots, FrameOk, Related;
    var e := inst.dest.ty.elem;
    CopyUses(inst, env.Keys);
    DestApart(fr, inst);
    SequenceOperand(fr, env, st, inst.destination, e, Exact(inst.dstLength));
    SequenceOperand(fr, env, st, inst.source, e, inst.srcBound);
    IndexOperand(fr, env, st, inst.dstAt);
    IndexOperand(fr, env, st, inst.srcAt);
    IndexOperand(fr, env, st, inst.len);
    CellRange(fr, env, st, inst.source);
    CellRange(fr, env, st, inst.destination);
    SlotsLow(env[inst.destination].elems, e, Cell(fr, inst.destination, st), fr, env, st);
  }

  lemma SlotsLow(es: seq<Value>, e: Ty, base: int, fr: Frame, env: Env, st: C.State)
    requires Related(fr, env, st) && Slots(es, e, base, st.mem)
    ensures 0 <= base <= C.ARENA_BYTES
  {
  }

  lemma CopyUses(inst: Inst, have: set<Id>)
    requires inst.SequenceCopy? && Available(Uses(inst), have)
    ensures inst.destination in have && inst.dstAt in have && inst.source in have && inst.srcAt in have && inst.len in have
    ensures inst.dest.id !in Uses(inst) ==>
      inst.dest.id != inst.destination && inst.dest.id != inst.dstAt && inst.dest.id != inst.source && inst.dest.id != inst.srcAt && inst.dest.id != inst.len
  {
    assert Uses(inst)[0] == inst.destination && Uses(inst)[1] == inst.dstAt && Uses(inst)[2] == inst.source;
    assert Uses(inst)[3] == inst.srcAt && Uses(inst)[4] == inst.len;
  }

  /** Distinct ids have distinct variables. */
  lemma DestApart(fr: Frame, inst: Inst)
    requires FrameOk(fr) && inst.SequenceCopy? && Typed(fr.types, inst.dest.id, inst.dest.ty)
    requires inst.dest.id != inst.destination && inst.dest.id != inst.dstAt && inst.dest.id != inst.source
    requires inst.dest.id != inst.srcAt && inst.dest.id != inst.len
    ensures forall i | i in [inst.destination, inst.dstAt, inst.source, inst.srcAt, inst.len] && i in fr.names ::
              fr.names[i] != fr.names[inst.dest.id]
  {
  }

  lemma CellRange(fr: Frame, env: Env, st: C.State, id: Id)
    requires FrameOk(fr) && Related(fr, env, st) && id in env && id in fr.types && (fr.types[id].TSeq? || fr.types[id].TView?)
    ensures id in fr.names && fr.names[id] in st.vars.values && 0 <= Cell(fr, id, st) < TWO_64
  {
    OperandHolds(fr, env, st, id);
  }

  function CopyRest(d: string, p: Span, w: SlotWidth, n: nat): seq<C.Stmt> {
    [C.Alloc(d, NumU(n * 8))] + SpanLanes(d, p.into, p.at, BaseOf(p.s, p.bound), p.start, p.n, w, 0, n)
  }

  /** Allocation and all lanes, from operands laid out below the bump. */
  lemma RunCopyRest(p: Span, d: string, w: SlotWidth, dst: seq<int>, src: seq<int>, depth: nat, st: C.State)
    requires Sources(p, CWidth(w), dst, src, st.mem) && SpanVars(p, st.vars) && Apart(p, d) && IsValueName(d)
    requires d in st.vars.types && st.vars.types[d] == C.U64 && Valid(st.mem) && !st.mem.failed
    ensures var f := C.Run(CopyRest(d, p, w, |dst|), depth, st);
            if Overruns(st.mem, 8 * |dst|) then Exhausted(C.FlowMemory(f)) else Building(st, f, d, CWidth(w), AlignUp(st.mem.bump), |dst|, SpliceWords(dst, p.a, src, p.b, p.len))
  {
    hide Pow2, Wrap, C.Eval, C.Run, SpanLanes, SpanVars, SpliceWords, Filling, Tame, Laid, SourceAddress;
    var n := |dst|;
    var words := SpliceWords(dst, p.a, src, p.b, p.len);
    EvalLit(st.vars, n * 8, C.SuffixU);
    RunAlloc(d, NumU(n * 8), C.U32, CWidth(w), n, depth, st);
    var alloc := C.Alloc(d, NumU(n * 8));
    var lanes := SpanLanes(d, p.into, p.at, BaseOf(p.s, p.bound), p.start, p.n, w, 0, n);
    var f0 := C.Run([alloc], depth, st);
    RunCons(alloc, lanes, depth, st);
    if Overruns(st.mem, 8 * n) {
      TameSpans(d, p.into, p.at, BaseOf(p.s, p.bound), p.start, p.n, w, 0, n);
      AfterExhaustion(lanes, d, depth, f0.st);
    } else {
      assert words[..0] == [];
      RunSpans(p, d, w, AlignUp(st.mem.bump), dst, src, 0, st, depth, f0.st);
    }
  }

  lemma CopyBody(m: Module, fr: Frame, inst: Inst, env: Env, st: C.State, depth: nat, st1: C.State)
    requires Ready(m, fr, inst, env, st) && inst.SequenceCopy? && inst.dest.id !in Uses(inst)
    requires IsInt(env, inst.dstAt) && IsInt(env, inst.srcAt) && IsInt(env, inst.len) && IsSeq(env, inst.destination) && IsSeq(env, inst.source)
    requires WindowsValid(env[inst.dstAt].n, env[inst.srcAt].n, env[inst.len].n, inst.dstLength, |env[inst.source].elems|)
    requires |env[inst.destination].elems| == inst.dstLength
    requires st1.mem == st.mem && SameElsewhere(st.vars, st1.vars, "")
    ensures Simulates(fr, inst.dest, Yields(SeqV(Splice(env[inst.destination].elems, env[inst.dstAt].n, env[inst.source].elems, env[inst.srcAt].n, env[inst.len].n))),
                      8 * inst.dstLength, env, st, C.Run(CopyRest(X(fr, inst.dest.id), SpanOf(fr, inst, env, st), inst.width, inst.dstLength), depth, st1))
  {
    hide Pow2, Wrap, C.Eval, C.Run, SpanVars, SpliceWords, Filling, Splice, Tame, Laid, SourceAddress, Slots, LengthOf, Evaluate, CopyRest, Raws;
    var d, e, w, n := inst.dest, inst.dest.ty.elem, CWidth(inst.width), inst.dstLength;
    var p, x := SpanOf(fr, inst, env, st), X(fr, inst.dest.id);
    DestName(fr, st, d);
    CopyOperands(m, fr, inst, env, st);
    var into, from := env[inst.destination].elems, env[inst.source].elems;
    CopySources(m, fr, inst, env, st);
    var dst, src := RawSlots(st.mem, w, p.dbase, n), RawSlots(st.mem, w, SourceAddress(p), |from|);
    RawsSplice(into, from, e, dst, src, p.a, p.b, p.len, st.mem);
    SpanKept(p, st.vars, st1.vars, "");
    RunCopyRest(p, x, inst.width, dst, src, depth, st1);
    var f := C.Run(CopyRest(x, p, inst.width, n), depth, st1);
    if !Overruns(st.mem, 8 * n) {
      var words := SpliceWords(dst, p.a, src, p.b, p.len);
      FromEarlier(st, st1, f, x, w, AlignUp(st.mem.bump), n, words);
      Built(fr, env, st, d, Splice(into, p.a, from, p.b, p.len), words, f);
    }
  }

  lemma FromEarlier(st: C.State, st1: C.State, f: C.Flow, d: string, w: C.Width, base: int, n: nat, words: seq<int>)
    requires st1.mem == st.mem && SameElsewhere(st.vars, st1.vars, "") && Building(st1, f, d, w, base, n, words)
    ensures Building(st, f, d, w, base, n, words)
  {
    hide Filling;
  }

  lemma CopySources(m: Module, fr: Frame, inst: Inst, env: Env, st: C.State)
    requires Ready(m, fr, inst, env, st) && inst.SequenceCopy? && inst.dest.id !in Uses(inst)
    requires IsInt(env, inst.dstAt) && IsInt(env, inst.srcAt) && IsInt(env, inst.len) && IsSeq(env, inst.destination) && IsSeq(env, inst.source)
    requires WindowsValid(env[inst.dstAt].n, env[inst.srcAt].n, env[inst.len].n, inst.dstLength, |env[inst.source].elems|)
    ensures var p, e, w := SpanOf(fr, inst, env, st), inst.dest.ty.elem, CWidth(inst.width);
            && p.dbase >= 0 && SourceAddress(p) >= 0
            && var dst, src := RawSlots(st.mem, w, p.dbase, inst.dstLength), RawSlots(st.mem, w, SourceAddress(p), |env[inst.source].elems|);
            && Sources(p, w, dst, src, st.mem)
            && Raws(env[inst.destination].elems, e, dst, st.mem) && Raws(env[inst.source].elems, e, src, st.mem)
  {
    hide Pow2, Wrap, C.Eval, LengthOf, C.SlotAt;
    CopyOperands(m, fr, inst, env, st);
    var p, e := SpanOf(fr, inst, env, st), inst.dest.ty.elem;
    RawsOf(env[inst.destination].elems, e, p.dbase, st.mem);
    RawsOf(env[inst.source].elems, e, SourceAddress(p), st.mem);
  }

  lemma SimCopy(m: Module, fr: Frame, inst: Inst, env: Env, st: C.State, depth: nat)
    requires Ready(m, fr, inst, env, st) && inst.SequenceCopy? && InEnvelope(inst, env) && inst.dest.id !in Uses(inst)
    ensures Simulates(fr, inst.dest, Evaluate(inst, env), BytesOf(inst), env, st, C.Run(InstCode(fr.names, inst), depth, st))
  {
    hide Pow2, Wrap, C.Eval, C.Run, CopyRest, SpanVars, LengthOf, CopyGuard, Splice;
    CopyOperands(m, fr, inst, env, st);
    var p, n := SpanOf(fr, inst, env, st), inst.dstLength;
    var rest, guard := CopyRest(X(fr, inst.dest.id), p, inst.width, n), CopyGuard(p.at, p.start, p.n, n, LengthOf(p.s, p.bound));
    var ok := WindowsValid(p.a, p.b, p.len, n, |env[inst.source].elems|);
    CopySplit(fr, inst, env, st);
    if inst.evidence.RuntimeChecked? {
      CopyGuardExact(p, n, |env[inst.source].elems|, depth, st);
      RunAppend(guard, rest, depth, st);
      if ok {
        CopyBody(m, fr, inst, env, st, depth, C.Run(guard, depth, st).st);
      }
    } else if ok {
      CopyBody(m, fr, inst, env, st, depth, st);
    }
  }

  lemma CopySplit(fr: Frame, inst: Inst, env: Env, st: C.State)
    requires inst.SequenceCopy? && IsInt(env, inst.dstAt) && IsInt(env, inst.srcAt) && IsInt(env, inst.len)
    ensures var p := SpanOf(fr, inst, env, st);
            var rest := CopyRest(X(fr, inst.dest.id), p, inst.width, inst.dstLength);
            InstCode(fr.names, inst) ==
              if inst.evidence.RuntimeChecked? then CopyGuard(p.at, p.start, p.n, inst.dstLength, LengthOf(p.s, p.bound)) + rest else rest
  {
    hide CopyGuard, LengthOf, SpanLanes;
  }
}
