/** Projection, length, views and checked indices: packed descriptors are slices. */
module ViewSimulation {
  import opened Options
  import opened Words
  import opened Mncs
  import opened Emit
  import opened Naming
  import opened IntegerLowering
  import opened Represent
  import opened Envelope
  import opened Relation
  import opened ScalarSimulation
  import C = CLang
  import opened Execution

  // ---------- Sequence operands ----------

  /** The base address inside a sequence cell or a view descriptor. */
  function BaseAddress(bound: Bound, c: int): int { if bound.Exact? then c else c % TWO_32 }

  lemma EvalBase(vars: C.Locals, x: string, bound: Bound, c: int)
    requires Holds(vars, x, C.U64, c) && 0 <= c < TWO_64
    ensures C.Eval(BaseOf(x, bound), vars) == C.Ok(C.CValue(C.U64, BaseAddress(bound, c)))
  {
    if bound.UpTo? {
      EvalCast(vars, C.U32, C.Var(x), C.CValue(C.U64, c));
      EvalCast(vars, C.U64, C.Cast(C.U32, C.Var(x)), C.CValue(C.U32, c % TWO_32));
      C.ToTypeFixes(C.U64, c % TWO_32);
    }
  }

  lemma EvalHighWord(vars: C.Locals, x: string, c: int)
    requires Holds(vars, x, C.U64, c) && 0 <= c < TWO_64
    ensures C.Eval(C.Bin(C.Shr, C.Var(x), Num(32)), vars) == C.Ok(C.CValue(C.U64, c / TWO_32))
  {
    Pow2Values();
    C.ToTypeFixes(C.U64, c);
    EvalBin(vars, C.Shr, C.Var(x), Num(32), C.CValue(C.U64, c), C.CValue(C.I32, 32));
  }

  /** A represented sequence operand: its elements, base and length. */
  lemma SequenceOperand(fr: Frame, env: Env, st: C.State, id: Id, e: Ty, bound: Bound)
    requires FrameOk(fr) && Related(fr, env, st) && id in env && TypedSequence(fr.types, id, e, bound)
    ensures IsSeq(env, id) && id in fr.names && NameOf(fr.names, id) == fr.names[id] && IsValueName(fr.names[id])
    ensures fr.names[id] in st.vars.values
    ensures var base := BaseAddress(bound, Cell(fr, id, st));
            && Slots(env[id].elems, e, base, st.mem)
            && C.Eval(BaseOf(fr.names[id], bound), st.vars) == C.Ok(C.CValue(C.U64, base))
            && C.Eval(LengthOf(fr.names[id], bound), st.vars) == C.Ok(C.CValue(C.U64, |env[id].elems|))
    ensures Holds(st.vars, fr.names[id], C.U64, Cell(fr, id, st))
    ensures if bound.Exact? then |env[id].elems| == bound.len else |env[id].elems| <= bound.cap
  {
    OperandHolds(fr, env, st, id);
    EvalBase(st.vars, fr.names[id], bound, Cell(fr, id, st));
    if bound.UpTo? {
      EvalHighWord(st.vars, fr.names[id], Cell(fr, id, st));
    }
  }

  lemma SlotsInArena(es: seq<Value>, e: Ty, base: int, m: C.Memory)
    requires Slots(es, e, base, m) && Valid(m)
    ensures 0 <= base && base + 8 * |es| <= C.ARENA_BYTES && |es| < 0x20_0001
  {
  }

  /** A `u64` operand read as unsigned is its value. */
  lemma IndexOperand(fr: Frame, env: Env, st: C.State, id: Id)
    requires FrameOk(fr) && Related(fr, env, st) && id in env && Typed(fr.types, id, U64_TYPE)
    ensures IsInt(env, id) && 0 <= env[id].n < TWO_64
    ensures id in fr.names && NameOf(fr.names, id) == fr.names[id] && IsValueName(fr.names[id])
    ensures Holds(st.vars, fr.names[id], C.I64, CellOf(env[id].n, B64))
    ensures C.Eval(AsU64(fr.names[id]), st.vars) == C.Ok(C.CValue(C.U64, env[id].n))
  {
    IntOperand(fr, env, st, id, B64, false);
    EvalAsU64(st.vars, fr.names[id]);
    CellOfUnsigned(env[id].n, B64);
  }

  // ---------- Guards and addresses ----------

  lemma CompareU64(vars: C.Locals, op: C.BinaryOp, e: C.Expr, f: C.Expr, a: int, b: int)
    requires C.Eval(e, vars) == C.Ok(C.CValue(C.U64, a)) && C.Eval(f, vars) == C.Ok(C.CValue(C.U64, b))
    requires 0 <= a < TWO_64 && 0 <= b < TWO_64 && (op.Ge? || op.Gt? || op.Lt? || op.Le?)
    ensures C.Eval(C.Bin(op, e, f), vars) == C.Truth(C.Compare(op, a, b))
  {
    hide Wrap;
    C.ToTypeFixes(C.U64, a);
    C.ToTypeFixes(C.U64, b);
    EvalBin(vars, op, e, f, C.CValue(C.U64, a), C.CValue(C.U64, b));
  }

  lemma RunIndexGuard(index: string, length: C.Expr, i: int, n: int, depth: nat, st: C.State)
    requires C.Eval(AsU64(index), st.vars) == C.Ok(C.CValue(C.U64, i)) && 0 <= i < TWO_64
    requires C.Eval(length, st.vars) == C.Ok(C.CValue(C.U64, n)) && 0 <= n < TWO_64
    ensures C.Run([IndexGuard(index, length)], depth, st) == if i >= n then C.Left(st.mem, 1) else C.Next(st)
  {
    CompareU64(st.vars, C.Ge, AsU64(index), length, i, n);
    RunTrapIf(C.Bin(C.Ge, AsU64(index), length), depth, st);
  }

  lemma AddU64(vars: C.Locals, e: C.Expr, f: C.Expr, x: C.CValue, y: C.CValue)
    requires C.Eval(e, vars) == C.Ok(x) && C.Eval(f, vars) == C.Ok(y)
    requires x.ty.U64? && (y.ty.U64? || y.ty.U32? || y.ty.I32? || y.ty.I64?)
    requires 0 <= x.n && 0 <= y.n && x.n + y.n < TWO_64
    ensures C.Eval(C.Bin(C.Add, e, f), vars) == C.Ok(C.CValue(C.U64, x.n + y.n))
  {
    hide Wrap, C.Eval;
    C.ToTypeFixes(C.U64, x.n);
    C.ToTypeFixes(C.U64, y.n);
    EvalBin(vars, C.Add, e, f, x, y);
    ModUnique(x.n + y.n, TWO_64, 0, x.n + y.n);
  }

  lemma TimesEight(vars: C.Locals, e: C.Expr, n: int)
    requires C.Eval(e, vars) == C.Ok(C.CValue(C.U64, n)) && 0 <= n < TWO_32
    ensures C.Eval(C.Bin(C.Mul, e, NumU(8)), vars) == C.Ok(C.CValue(C.U64, 8 * n))
  {
    C.ToTypeFixes(C.U64, n);
    C.ToTypeFixes(C.U64, 8);
    EvalBin(vars, C.Mul, e, NumU(8), C.CValue(C.U64, n), C.CValue(C.U32, 8));
    ModUnique(n * 8, TWO_64, 0, n * 8);
  }

  lemma EvalSlotAddress(vars: C.Locals, base: C.Expr, index: string, b: int, i: int)
    requires C.Eval(base, vars) == C.Ok(C.CValue(C.U64, b)) && C.Eval(AsU64(index), vars) == C.Ok(C.CValue(C.U64, i))
    requires 0 <= b < TWO_32 && 0 <= i < TWO_32
    ensures C.Eval(SlotAddress(base, index), vars) == C.Ok(C.CValue(C.U64, b + 8 * i))
  {
    hide Wrap;
    TimesEight(vars, AsU64(index), i);
    AddU64(vars, base, C.Bin(C.Mul, AsU64(index), NumU(8)), C.CValue(C.U64, b), C.CValue(C.U64, 8 * i));
  }

  /** A load from an address the guard admits. */
  lemma RunLoad(d: string, ty: Ty, at: C.Expr, a: int, depth: nat, st: C.State)
    requires C.Eval(at, st.vars) == C.Ok(C.CValue(C.U64, a)) && InArena(WidthFor(ty), a)
    requires Valid(st.mem) && !st.mem.failed
    requires IsValueName(d) && d in st.vars.types && st.vars.types[d] == CTypeOf(ty)
    ensures Assigns(st, C.Run([C.Load(d, CTypeOf(ty), WidthFor(ty), at)], depth, st), d, SlotCell(st.mem, ty, a))
  {
    hide Wrap;
    C.ToTypeFixes(C.U64, a);
    Idempotent(CTypeOf(ty), C.SlotAt(st.mem, WidthFor(ty), a));
    RunOne(C.Load(d, CTypeOf(ty), WidthFor(ty), at), depth, st);
  }

  /** A guard in front, then the rest. */
  lemma RunGuarded(guard: C.Stmt, rest: seq<C.Stmt>, trap: bool, depth: nat, st: C.State)
    requires C.Run([guard], depth, st) == if trap then C.Left(st.mem, 1) else C.Next(st)
    ensures C.Run([guard] + rest, depth, st) == if trap then C.Left(st.mem, 1) else C.Run(rest, depth, st)
  {
    RunCons(guard, rest, depth, st);
  }

  // ---------- Projection ----------

  /** The load itself, for an index in range. */
  lemma ProjectLoad(fr: Frame, d: Val, es: seq<Value>, base: int, i: nat, x: string, y: string, bound: Bound, env: Env, st: C.State, depth: nat)
    requires FrameOk(fr) && Related(fr, env, st) && Typed(fr.types, d.id, d.ty)
    requires Slots(es, d.ty, base, st.mem) && i < |es|
    requires C.Eval(BaseOf(x, bound), st.vars) == C.Ok(C.CValue(C.U64, base)) && C.Eval(AsU64(y), st.vars) == C.Ok(C.CValue(C.U64, i))
    ensures Simulates(fr, d, Yields(es[i]), 0, env, st,
                      C.Run([C.Load(fr.names[d.id], CTypeOf(d.ty), WidthFor(d.ty), SlotAddress(BaseOf(x, bound), y))], depth, st))
  {
    hide Wrap, C.Eval, C.Run, BaseOf, SlotAddress;
    DestName(fr, st, d);
    SlotsInArena(es, d.ty, base, st.mem);
    var at := SlotAddress(BaseOf(x, bound), y);
    EvalSlotAddress(st.vars, BaseOf(x, bound), y, base, i);
    RunLoad(fr.names[d.id], d.ty, at, base + 8 * i, depth, st);
    Assigned(fr, env, st, d, es[i], SlotCell(st.mem, d.ty, base + 8 * i),
             C.Run([C.Load(fr.names[d.id], CTypeOf(d.ty), WidthFor(d.ty), at)], depth, st));
  }

  lemma SimProject(m: Module, fr: Frame, inst: Inst, env: Env, st: C.State, depth: nat)
    requires Ready(m, fr, inst, env, st) && inst.SequenceProject? && InEnvelope(inst, env)
    ensures Simulates(fr, inst.dest, Evaluate(inst, env), BytesOf(inst), env, st, C.Run(InstCode(fr.names, inst), depth, st))
  {
    hide Wrap, C.Eval, C.Run, BaseOf, LengthOf, SlotAddress;
    var d := inst.dest;
    assert Uses(inst)[0] == inst.sequence && Uses(inst)[1] == inst.index;
    DestName(fr, st, d);
    SequenceOperand(fr, env, st, inst.sequence, d.ty, inst.bound);
    IndexOperand(fr, env, st, inst.index);
    var es, i, base := env[inst.sequence].elems, env[inst.index].n, BaseAddress(inst.bound, Cell(fr, inst.sequence, st));
    SlotsInArena(es, d.ty, base, st.mem);
    var x, y := X(fr, inst.sequence), X(fr, inst.index);
    var load := C.Load(fr.names[d.id], CTypeOf(d.ty), WidthFor(d.ty), SlotAddress(BaseOf(x, inst.bound), y));
    if inst.evidence.RuntimeChecked? {
      RunIndexGuard(y, LengthOf(x, inst.bound), i, |es|, depth, st);
      RunGuarded(IndexGuard(y, LengthOf(x, inst.bound)), [load], i >= |es|, depth, st);
    } else {
      assert [] + [load] == [load];
    }
    if i < |es| {
      ProjectLoad(fr, d, es, base, i, x, y, inst.bound, env, st, depth);
    }
  }

  // ---------- Length and checked indices ----------

  lemma LengthRep(n: int, m: C.Memory)
    requires 0 <= n < TWO_63
    ensures Rep(IntV(n), U64_TYPE, n, m) && C.ToType(C.I64, n) == n
  {
    WrapFixes(n, TWO_64, true);
  }

  lemma SimLength(m: Module, fr: Frame, inst: Inst, env: Env, st: C.State, depth: nat)
    requires Ready(m, fr, inst, env, st) && inst.SequenceLength?
    ensures Simulates(fr, inst.dest, Evaluate(inst, env), BytesOf(inst), env, st, C.Run(InstCode(fr.names, inst), depth, st))
  {
    hide Wrap, C.Run, LengthOf;
    var d, s, e := inst.dest, inst.sequence, ElementType(fr.types[inst.sequence]);
    assert Uses(inst)[0] == s;
    DestName(fr, st, d);
    SequenceOperand(fr, env, st, s, e, inst.bound);
    var n := |env[s].elems|;
    SlotsInArena(env[s].elems, e, BaseAddress(inst.bound, Cell(fr, s, st)), st.mem);
    LengthRep(n, st.mem);
    EvalCast(st.vars, C.I64, LengthOf(X(fr, s), inst.bound), C.CValue(C.U64, n));
    RunAssign(fr.names[d.id], C.Cast(C.I64, LengthOf(X(fr, s), inst.bound)), n, depth, st);
    Assigned(fr, env, st, d, IntV(n), n, C.Run(InstCode(fr.names, inst), depth, st));
  }

  lemma SimBoundCheck(m: Module, fr: Frame, inst: Inst, env: Env, st: C.State, depth: nat)
    requires Ready(m, fr, inst, env, st) && inst.BoundCheck?
    ensures Simulates(fr, inst.dest, Evaluate(inst, env), BytesOf(inst), env, st, C.Run(InstCode(fr.names, inst), depth, st))
  {
    hide Wrap, C.Run, LengthOf;
    var d, s, e := inst.dest, inst.sequence, ElementType(fr.types[inst.sequence]);
    assert Uses(inst)[0] == s && Uses(inst)[1] == inst.index;
    DestName(fr, st, d);
    SequenceOperand(fr, env, st, s, e, inst.bound);
    IndexOperand(fr, env, st, inst.index);
    var n, i := |env[s].elems|, env[inst.index].n;
    var x, y := X(fr, s), X(fr, inst.index);
    SlotsInArena(env[s].elems, e, BaseAddress(inst.bound, Cell(fr, s, st)), st.mem);
    var guard, keep := IndexGuard(y, LengthOf(x, inst.bound)), C.Assign(fr.names[d.id], C.Var(y));
    RunIndexGuard(y, LengthOf(x, inst.bound), i, n, depth, st);
    RunGuarded(guard, [keep], i >= n, depth, st);
    assert [guard] + [keep] == [guard, keep];
    if i < n {
      Idempotent(C.I64, i);
      RunAssign(fr.names[d.id], C.Var(y), CellOf(i, B64), depth, st);
      Assigned(fr, env, st, d, env[inst.index], CellOf(i, B64), C.Run([keep], depth, st));
    }
  }

  // ---------- Narrowing ----------

  function NarrowTest(x: string, cap: nat): C.Expr { C.Bin(C.Gt, C.Bin(C.Shr, C.Var(x), Num(32)), NumULL(cap)) }

  lemma EvalNarrowTest(vars: C.Locals, x: string, c: int, cap: nat)
    requires Holds(vars, x, C.U64, c) && 0 <= c < TWO_64 && cap <= MAX_SEQUENCE_BOUND
    ensures C.Eval(NarrowTest(x, cap), vars) == C.Truth(c / TWO_32 > cap)
  {
    hide C.Eval;
    EvalHighWord(vars, x, c);
    EvalLit(vars, cap, C.SuffixULL);
    CompareU64(vars, C.Gt, C.Bin(C.Shr, C.Var(x), Num(32)), NumULL(cap), c / TWO_32, cap);
  }

  /** `d = x;` between variables of one type. */
  lemma RunCopyVar(d: string, x: string, t: C.CType, c: int, depth: nat, st: C.State)
    requires IsValueName(d) && d in st.vars.types && st.vars.types[d] == t && Holds(st.vars, x, t, c) && C.Fits(t, c)
    ensures Assigns(st, C.Run([C.Assign(d, C.Var(x))], depth, st), d, c)
  {
    hide Wrap;
    C.ToTypeFixes(t, c);
    RunAssign(d, C.Var(x), c, depth, st);
  }

  lemma SimNarrow(m: Module, fr: Frame, inst: Inst, env: Env, st: C.State, depth: nat)
    requires Ready(m, fr, inst, env, st) && inst.ViewNarrow?
    ensures Simulates(fr, inst.dest, Evaluate(inst, env), BytesOf(inst), env, st, C.Run(InstCode(fr.names, inst), depth, st))
  {
    hide Wrap, C.Run, C.Eval;
    var d, s := inst.dest, inst.source;
    assert Uses(inst)[0] == s;
    DestName(fr, st, d);
    OperandHolds(fr, env, st, s);
    var c, x := Cell(fr, s, st), fr.names[d.id];
    var copy, test := C.Assign(x, C.Var(X(fr, s))), NarrowTest(x, inst.newCap);
    RunCopyVar(x, X(fr, s), C.U64, c, depth, st);
    var st1 := C.Run([copy], depth, st).st;
    EvalNarrowTest(st1.vars, x, c, inst.newCap);
    RunTrapIf(test, depth, st1);
    RunCons(copy, [TrapIf(test)], depth, st);
    assert [copy] + [TrapIf(test)] == [copy, TrapIf(test)];
    if |env[s].elems| <= inst.newCap {
      assert Rep(env[s], d.ty, c, st.mem);
      Assigned(fr, env, st, d, env[s], c, C.Run([copy, TrapIf(test)], depth, st));
    }
  }

  // ---------- View construction ----------

  /** When the reference executor refuses a range. */
  predicate BadRange(start: int, end: int, n: int, cap: nat) { end < start || end > n || end - start > cap }

  lemma SignedCell(n: int)
    requires 0 <= n < TWO_64
    ensures CellOf(n, B64) == if n < TWO_63 then n else n - TWO_64
    ensures C.Fits(C.I64, CellOf(n, B64)) && C.ToType(C.I64, CellOf(n, B64)) == CellOf(n, B64)
    ensures C.ToType(C.U64, CellOf(n, B64)) == n
  {
    CellOfUnsigned(n, B64);
    C.ToTypeFixes(C.I64, CellOf(n, B64));
    if n < TWO_63 {
      WrapFixes(n, TWO_64, true);
    } else {
      WrapFixes(n - TWO_64, TWO_64, true);
      ModShift(n, TWO_64, -1);
      WrapCongruent(n - TWO_64, n, TWO_64, true);
    }
  }

  function DifferenceTest(x: string, y: string, cap: nat): C.Expr {
    C.Bin(C.Gt, C.Bin(C.Sub, C.Var(y), C.Var(x)), NumULL(cap))
  }

  /** The capacity test on the signed difference of the two cells. */
  lemma EvalDifference(vars: C.Locals, x: string, y: string, start: int, end: int, cap: nat)
    requires Holds(vars, x, C.I64, CellOf(start, B64)) && Holds(vars, y, C.I64, CellOf(end, B64))
    requires 0 <= start < TWO_64 && 0 <= end < TWO_63 && cap <= MAX_SEQUENCE_BOUND
    ensures start < TWO_63 && start <= end ==> C.Eval(DifferenceTest(x, y, cap), vars) == C.Truth(end - start > cap)
    ensures TWO_63 <= start <= TWO_63 + end ==> C.Eval(DifferenceTest(x, y, cap), vars).Undef?
    ensures start > TWO_63 + end ==> C.Eval(DifferenceTest(x, y, cap), vars) == C.Truth(end + TWO_64 - start > cap)
  {
    hide Wrap;
    SignedCell(start);
    SignedCell(end);
    var s, e := CellOf(start, B64), CellOf(end, B64);
    EvalBin(vars, C.Sub, C.Var(y), C.Var(x), C.CValue(C.I64, e), C.CValue(C.I64, s));
    if !(TWO_63 <= start <= TWO_63 + end) && (start >= TWO_63 || start <= end) {
      C.ToTypeFixes(C.U64, e - s);
      C.ToTypeFixes(C.U64, cap);
      EvalBin(vars, C.Gt, C.Bin(C.Sub, C.Var(y), C.Var(x)), NumULL(cap), C.CValue(C.I64, e - s), C.CValue(C.U64, cap));
    }
  }

  function RangeTest(x: string, y: string, length: C.Expr): C.Expr {
    C.Bin(C.LogicalOr, C.Bin(C.Gt, C.Var(x), C.Var(y)), C.Bin(C.Gt, C.Var(y), length))
  }

  /** The first two tests: starts compare as signed cells, the length unsigned. */
  lemma EvalRangeTest(vars: C.Locals, x: string, y: string, length: C.Expr, start: int, end: int, n: int)
    requires Holds(vars, x, C.I64, CellOf(start, B64)) && Holds(vars, y, C.I64, CellOf(end, B64))
    requires 0 <= start < TWO_64 && 0 <= end < TWO_64 && 0 <= n < TWO_32
    requires C.Eval(length, vars) == C.Ok(C.CValue(C.U64, n))
    ensures C.Eval(RangeTest(x, y, length), vars) == C.Truth(CellOf(start, B64) > CellOf(end, B64) || end > n)
  {
    hide Wrap;
    SignedCell(start);
    SignedCell(end);
    C.ToTypeFixes(C.U64, n);
    var s, e := CellOf(start, B64), CellOf(end, B64);
    EvalBin(vars, C.Gt, C.Var(x), C.Var(y), C.CValue(C.I64, s), C.CValue(C.I64, e));
    EvalBin(vars, C.Gt, C.Var(y), length, C.CValue(C.I64, e), C.CValue(C.U64, n));
  }

  /** The emitted guard is the reference range check exactly inside the envelope;
      outside it the guard is undefined or lets a bad range through. */
  lemma ViewGuardExact(vars: C.Locals, x: string, y: string, length: C.Expr, start: int, end: int, n: int, cap: nat)
    requires Holds(vars, x, C.I64, CellOf(start, B64)) && Holds(vars, y, C.I64, CellOf(end, B64))
    requires 0 <= start < TWO_64 && 0 <= end < TWO_64 && 0 <= n < TWO_32 && cap <= MAX_SEQUENCE_BOUND
    requires C.Eval(length, vars) == C.Ok(C.CValue(C.U64, n))
    ensures C.Eval(C.Bin(C.LogicalOr, RangeTest(x, y, length), DifferenceTest(x, y, cap)), vars) == C.Truth(BadRange(start, end, n, cap))
       <==> ViewEnvelope(start, end, n, cap)
  {
    hide Wrap, RangeTest, DifferenceTest;
    EvalRangeTest(vars, x, y, length, start, end, n);
    SignedCell(start);
    SignedCell(end);
    if end <= n {
      EvalDifference(vars, x, y, start, end, cap);
    }
  }

  lemma EvalDescriptor(vars: C.Locals, x: string, y: string, base: C.Expr, b: int, start: int, end: int)
    requires Holds(vars, x, C.I64, CellOf(start, B64)) && Holds(vars, y, C.I64, CellOf(end, B64))
    requires C.Eval(base, vars) == C.Ok(C.CValue(C.U64, b)) && 0 <= b && b + 8 * end <= C.ARENA_BYTES && 0 <= start <= end
    ensures C.Eval(C.Cast(C.U64, C.Cast(C.U32, C.Bin(C.Add, base, C.Bin(C.Mul, C.Var(x), NumU(8))))), vars)
         == C.Ok(C.CValue(C.U64, b + 8 * start))
    ensures C.Eval(C.Bin(C.Shl, C.Cast(C.U64, C.Bin(C.Sub, C.Var(y), C.Var(x))), Num(32)), vars)
         == C.Ok(C.CValue(C.U64, (end - start) * TWO_32))
  {
    hide Wrap;
    SignedCell(start);
    SignedCell(end);
    EvalLowField(vars, x, base, b, start);
    EvalHighField(vars, x, y, start, end);
  }

  lemma EvalLowField(vars: C.Locals, x: string, base: C.Expr, b: int, start: int)
    requires Holds(vars, x, C.I64, start) && C.Eval(base, vars) == C.Ok(C.CValue(C.U64, b))
    requires 0 <= b && 0 <= start && b + 8 * start <= C.ARENA_BYTES
    ensures C.Eval(C.Cast(C.U64, C.Cast(C.U32, C.Bin(C.Add, base, C.Bin(C.Mul, C.Var(x), NumU(8))))), vars)
         == C.Ok(C.CValue(C.U64, b + 8 * start))
  {
    hide Wrap;
    C.ToTypeFixes(C.I64, start);
    C.ToTypeFixes(C.I64, 8);
    EvalBin(vars, C.Mul, C.Var(x), NumU(8), C.CValue(C.I64, start), C.CValue(C.U32, 8));
    var product := C.Bin(C.Mul, C.Var(x), NumU(8));
    AddU64(vars, base, product, C.CValue(C.U64, b), C.CValue(C.I64, start * 8));
    C.ToTypeFixes(C.U32, b + 8 * start);
    C.ToTypeFixes(C.U64, b + 8 * start);
    EvalCast(vars, C.U32, C.Bin(C.Add, base, product), C.CValue(C.U64, b + 8 * start));
    EvalCast(vars, C.U64, C.Cast(C.U32, C.Bin(C.Add, base, product)), C.CValue(C.U32, b + 8 * start));
  }

  lemma ShlWord(vars: C.Locals, e: C.Expr, n: int)
    requires C.Eval(e, vars) == C.Ok(C.CValue(C.U64, n)) && 0 <= n < TWO_32
    ensures C.Eval(C.Bin(C.Shl, e, Num(32)), vars) == C.Ok(C.CValue(C.U64, n * TWO_32))
  {
    hide Wrap, Pow2, C.Eval;
    Pow2Values();
    C.ToTypeFixes(C.U64, n);
    EvalLit(vars, 32, C.NoSuffix);
    EvalBin(vars, C.Shl, e, Num(32), C.CValue(C.U64, n), C.CValue(C.I32, 32));
    ModUnique(n * TWO_32, TWO_64, 0, n * TWO_32);
  }

  lemma EvalHighField(vars: C.Locals, x: string, y: string, start: int, end: int)
    requires Holds(vars, x, C.I64, start) && Holds(vars, y, C.I64, end) && 0 <= start <= end < TWO_32
    ensures C.Eval(C.Bin(C.Shl, C.Cast(C.U64, C.Bin(C.Sub, C.Var(y), C.Var(x))), Num(32)), vars)
         == C.Ok(C.CValue(C.U64, (end - start) * TWO_32))
  {
    hide Wrap, Pow2, C.Shift;
    C.ToTypeFixes(C.I64, start);
    C.ToTypeFixes(C.I64, end);
    EvalBin(vars, C.Sub, C.Var(y), C.Var(x), C.CValue(C.I64, end), C.CValue(C.I64, start));
    var n := end - start;
    C.ToTypeFixes(C.U64, n);
    EvalCast(vars, C.U64, C.Bin(C.Sub, C.Var(y), C.Var(x)), C.CValue(C.I64, n));
    ShlWord(vars, C.Cast(C.U64, C.Bin(C.Sub, C.Var(y), C.Var(x))), n);
  }

  /** The descriptor: address in the low word, length in the high word. */
  lemma EvalPacked(vars: C.Locals, low: C.Expr, high: C.Expr, a: int, n: int)
    requires C.Eval(low, vars) == C.Ok(C.CValue(C.U64, a)) && C.Eval(high, vars) == C.Ok(C.CValue(C.U64, n * TWO_32))
    requires 0 <= a < TWO_32 && 0 <= n < TWO_32
    ensures C.Eval(C.Bin(C.Or, low, high), vars) == C.Ok(C.CValue(C.U64, a + n * TWO_32))
    ensures (a + n * TWO_32) / TWO_32 == n && (a + n * TWO_32) % TWO_32 == a && 0 <= a + n * TWO_32 < TWO_64
  {
    hide Wrap;
    Pow2Values();
    BitsU64(C.Or, a, n * TWO_32);
    EvalBin(vars, C.Or, low, high, C.CValue(C.U64, a), C.CValue(C.U64, n * TWO_32));
    OrPacks(a, n, 64, 32, n * TWO_32);
    ModUnique(a + n * TWO_32, TWO_32, n, a);
  }

  lemma SimView(m: Module, fr: Frame, inst: Inst, env: Env, st: C.State, depth: nat)
    requires Ready(m, fr, inst, env, st) && inst.ViewConstruct? && InEnvelope(inst, env)
    ensures Simulates(fr, inst.dest, Evaluate(inst, env), BytesOf(inst), env, st, C.Run(InstCode(fr.names, inst), depth, st))
  {
    hide Wrap, C.Eval, C.Run, BaseOf, LengthOf, ViewEnvelope;
    var d, s, e := inst.dest, inst.source, inst.dest.ty.elem;
    assert Uses(inst)[0] == s && Uses(inst)[1] == inst.start && Uses(inst)[2] == inst.end;
    DestName(fr, st, d);
    SequenceOperand(fr, env, st, s, e, inst.sourceBound);
    IndexOperand(fr, env, st, inst.start);
    IndexOperand(fr, env, st, inst.end);
    var es, start, end := env[s].elems, env[inst.start].n, env[inst.end].n;
    var base, x, y := BaseAddress(inst.sourceBound, Cell(fr, s, st)), X(fr, inst.start), X(fr, inst.end);
    SlotsInArena(es, e, base, st.mem);
    var length := LengthOf(X(fr, s), inst.sourceBound);
    ViewGuardExact(st.vars, x, y, length, start, end, |es|, inst.viewCap);
    var guard := ViewGuard(X(fr, s), inst.sourceBound, x, y, inst.viewCap);
    var pack := C.Assign(fr.names[d.id], ViewDescriptor(X(fr, s), inst.sourceBound, x, y));
    RunTrapIf(C.Bin(C.LogicalOr, RangeTest(x, y, length), DifferenceTest(x, y, inst.viewCap)), depth, st);
    RunGuarded(guard, [pack], BadRange(start, end, |es|, inst.viewCap), depth, st);
    assert [guard] + [pack] == [guard, pack];
    if !BadRange(start, end, |es|, inst.viewCap) {
      PackView(fr, d, X(fr, s), inst.sourceBound, x, y, es, base, start, end, env, st, depth);
    }
  }

  lemma PackView(fr: Frame, d: Val, s: string, bound: Bound, x: string, y: string, es: seq<Value>, base: int, start: int, end: int,
                 env: Env, st: C.State, depth: nat)
    requires FrameOk(fr) && Related(fr, env, st) && Typed(fr.types, d.id, d.ty) && d.ty.TView?
    requires Slots(es, d.ty.elem, base, st.mem) && C.Eval(BaseOf(s, bound), st.vars) == C.Ok(C.CValue(C.U64, base))
    requires 0 <= start <= end <= |es| && end - start <= d.ty.cap
    requires Holds(st.vars, x, C.I64, CellOf(start, B64)) && Holds(st.vars, y, C.I64, CellOf(end, B64))
    ensures Simulates(fr, d, Yields(SeqV(es[start..end])), 0, env, st,
                      C.Run([C.Assign(fr.names[d.id], ViewDescriptor(s, bound, x, y))], depth, st))
  {
    hide Wrap, C.Eval, C.Run, BaseOf;
    DestName(fr, st, d);
    SlotsInArena(es, d.ty.elem, base, st.mem);
    EvalDescriptor(st.vars, x, y, BaseOf(s, bound), base, start, end);
    var low := C.Cast(C.U64, C.Cast(C.U32, C.Bin(C.Add, BaseOf(s, bound), C.Bin(C.Mul, C.Var(x), NumU(8)))));
    var high := C.Bin(C.Shl, C.Cast(C.U64, C.Bin(C.Sub, C.Var(y), C.Var(x))), Num(32));
    var a, n := base + 8 * start, end - start;
    EvalPacked(st.vars, low, high, a, n);
    var c := a + n * TWO_32;
    C.ToTypeFixes(C.U64, c);
    RunAssign(fr.names[d.id], ViewDescriptor(s, bound, x, y), c, depth, st);
    SlotsSlice(es, d.ty.elem, base, st.mem, start, end);
    assert Rep(SeqV(es[start..end]), d.ty, c, st.mem);
    Assigned(fr, env, st, d, SeqV(es[start..end]), c, C.Run([C.Assign(fr.names[d.id], ViewDescriptor(s, bound, x, y))], depth, st));
  }

  // ---------- Views of views ----------

  /** One view construction: the range taken and the capacity declared. */
  datatype Range = Range(start: int, end: int, cap: nat)

  /** Views taken one of another. */
  function Through(es: seq<Value>, ranges: seq<Range>): Option<seq<Value>>
    decreases |ranges|
  {
    if ranges == [] then Some(es)
    else
      var v := EvaluateView(es, ranges[0].start, ranges[0].end, ranges[0].cap);
      if v.Yields? && v.v.SeqV? then Through(v.v.elems, ranges[1..]) else None
  }

  function Offset(ranges: seq<Range>): int {
    if ranges == [] then 0 else ranges[0].start + Offset(ranges[1..])
  }

  lemma SliceOfSlice(es: seq<Value>, a: nat, b: nat, lo: nat, hi: nat)
    requires a <= b <= |es| && lo <= hi <= b - a
    ensures es[a..b][lo..hi] == es[a + lo..a + hi]
  {
    var x, y := es[a..b][lo..hi], es[a + lo..a + hi];
    assert |x| == |y|;
    forall i | 0 <= i < |x|
      ensures x[i] == y[i]
    {
      assert x[i] == es[a..b][lo + i] == es[a + (lo + i)];
    }
  }

  /** A view of a view, at any depth, is one slice of the underlying sequence, and
      its descriptor's address is that slice's slot. */
  lemma {:induction false} ViewsCompose(es: seq<Value>, e: Ty, base: int, m: C.Memory, ranges: seq<Range>)
    requires Through(es, ranges).Some? && Slots(es, e, base, m)
    ensures var lo, part := Offset(ranges), Through(es, ranges).value;
            && 0 <= lo && lo + |part| <= |es| && part == es[lo..lo + |part|]
            && Slots(part, e, base + 8 * lo, m)
    decreases |ranges|
  {
    hide Slots;
    if ranges != [] {
      var r, rest := ranges[0], ranges[1..];
      var inner := es[r.start..r.end];
      SlotsSlice(es, e, base, m, r.start, r.end);
      ViewsCompose(inner, e, base + 8 * r.start, m, rest);
      var lo, part := Offset(rest), Through(inner, rest).value;
      SliceOfSlice(es, r.start, r.end, lo, lo + |part|);
      assert base + 8 * r.start + 8 * lo == base + 8 * (r.start + lo);
    } else {
      assert es[0..|es|] == es;
    }
  }
}
