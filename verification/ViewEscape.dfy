/** View construction on every operand: what the emitted code does with a start
    that compares as a negative number, and exactly when it is right. */
module ViewEscape {
  import opened Words
  import opened Mncs
  import opened Emit
  import opened Naming
  import opened IntegerLowering
  import opened Envelope
  import opened Relation
  import opened ScalarSimulation
  import opened ViewSimulation
  import Discipline
  import C = CLang
  import opened Execution

  /** A view descriptor: an address and a length. */
  function Packed(address: int, length: int): int { address + length * TWO_32 }

  /** The whole test of the guard. */
  function GuardTest(x: string, y: string, length: C.Expr, cap: nat): C.Expr {
    C.Bin(C.LogicalOr, RangeTest(x, y, length), DifferenceTest(x, y, cap))
  }

  /** Outside the envelope the guard is undefined, or passes a bad range. */
  lemma OutsideGuard(vars: C.Locals, x: string, y: string, length: C.Expr, start: int, end: int, n: int, cap: nat)
    requires Holds(vars, x, C.I64, CellOf(start, B64)) && Holds(vars, y, C.I64, CellOf(end, B64))
    requires 0 <= start < TWO_64 && 0 <= end < TWO_64 && 0 <= n < TWO_32 && cap <= MAX_SEQUENCE_BOUND
    requires C.Eval(length, vars) == C.Ok(C.CValue(C.U64, n)) && !ViewEnvelope(start, end, n, cap)
    ensures start <= TWO_63 + end ==> C.Eval(GuardTest(x, y, length, cap), vars).Undef?
    ensures start > TWO_63 + end ==> C.Eval(GuardTest(x, y, length, cap), vars) == C.Truth(false) && end + TWO_64 - start <= cap
  {
    hide Wrap, RangeTest, DifferenceTest;
    EvalRangeTest(vars, x, y, length, start, end, n);
    SignedCell(start);
    SignedCell(end);
    EvalDifference(vars, x, y, start, end, cap);
  }

  /** The address field for a start `k` below 2^64: `k` slots before the base. */
  lemma EscapedAddress(vars: C.Locals, x: string, base: C.Expr, b: int, k: int)
    requires Holds(vars, x, C.I64, -k) && C.Eval(base, vars) == C.Ok(C.CValue(C.U64, b))
    requires 0 <= b <= C.ARENA_BYTES && 0 < k <= MAX_SEQUENCE_BOUND
    ensures C.Eval(C.Cast(C.U64, C.Cast(C.U32, C.Bin(C.Add, base, C.Bin(C.Mul, C.Var(x), NumU(8))))), vars)
         == C.Ok(C.CValue(C.U64, (b - 8 * k) % TWO_32))
  {
    hide Wrap;
    var product := C.Bin(C.Mul, C.Var(x), NumU(8));
    C.ToTypeFixes(C.I64, -k);
    C.ToTypeFixes(C.I64, 8);
    EvalVar(vars, x, C.I64, -k);
    EvalBin(vars, C.Mul, C.Var(x), NumU(8), C.CValue(C.I64, -k), C.CValue(C.U32, 8));
    WrappedSum(b, k);
    C.ToTypeFixes(C.U64, b);
    EvalBin(vars, C.Add, base, product, C.CValue(C.U64, b), C.CValue(C.I64, -k * 8));
    EvalCast(vars, C.U32, C.Bin(C.Add, base, product), C.CValue(C.U64, (b - 8 * k) % TWO_64));
    EvalCast(vars, C.U64, C.Cast(C.U32, C.Bin(C.Add, base, product)), C.CValue(C.U32, (b - 8 * k) % TWO_32));
    C.ToTypeFixes(C.U64, (b - 8 * k) % TWO_32);
  }

  lemma WrappedSum(b: int, k: int)
    requires 0 <= b <= C.ARENA_BYTES && 0 < k <= MAX_SEQUENCE_BOUND
    ensures C.ToType(C.U64, -k * 8) == TWO_64 - 8 * k
    ensures (b + (TWO_64 - 8 * k)) % TWO_64 == (b - 8 * k) % TWO_64
    ensures C.ToType(C.U32, (b - 8 * k) % TWO_64) == (b - 8 * k) % TWO_32
  {
    ModUnique(-k * 8, TWO_64, -1, TWO_64 - 8 * k);
    ModShift(b - 8 * k, TWO_64, 1);
    ModOfMod(b - 8 * k, TWO_64, TWO_32, TWO_32);
  }

  lemma EscapedLength(vars: C.Locals, x: string, y: string, end: int, k: int)
    requires Holds(vars, x, C.I64, -k) && Holds(vars, y, C.I64, end)
    requires 0 <= end && 0 < k && end + k <= MAX_SEQUENCE_BOUND
    ensures C.Eval(C.Bin(C.Shl, C.Cast(C.U64, C.Bin(C.Sub, C.Var(y), C.Var(x))), Num(32)), vars)
         == C.Ok(C.CValue(C.U64, (end + k) * TWO_32))
  {
    hide Wrap, Pow2, C.Shift;
    C.ToTypeFixes(C.I64, -k);
    C.ToTypeFixes(C.I64, end);
    EvalVar(vars, x, C.I64, -k);
    EvalVar(vars, y, C.I64, end);
    EvalBin(vars, C.Sub, C.Var(y), C.Var(x), C.CValue(C.I64, end), C.CValue(C.I64, -k));
    C.ToTypeFixes(C.U64, end + k);
    EvalCast(vars, C.U64, C.Bin(C.Sub, C.Var(y), C.Var(x)), C.CValue(C.I64, end + k));
    ShlWord(vars, C.Cast(C.U64, C.Bin(C.Sub, C.Var(y), C.Var(x))), end + k);
  }

  lemma RunEscape(d: string, s: string, bound: Bound, x: string, y: string, b: int, start: int, end: int, depth: nat, st: C.State)
    requires Holds(st.vars, x, C.I64, CellOf(start, B64)) && Holds(st.vars, y, C.I64, CellOf(end, B64))
    requires C.Eval(BaseOf(s, bound), st.vars) == C.Ok(C.CValue(C.U64, b)) && 0 <= b <= C.ARENA_BYTES
    requires IsValueName(d) && d in st.vars.types && st.vars.types[d] == C.U64
    requires 0 <= end && TWO_63 + end < start < TWO_64 && end + TWO_64 - start <= MAX_SEQUENCE_BOUND
    ensures Assigns(st, C.Run([C.Assign(d, ViewDescriptor(s, bound, x, y))], depth, st), d,
                    Packed((b - 8 * (TWO_64 - start)) % TWO_32, end + TWO_64 - start))
  {
    hide Wrap, C.Eval, C.Run, BaseOf;
    var k := TWO_64 - start;
    SignedCell(start);
    SignedCell(end);
    EscapedAddress(st.vars, x, BaseOf(s, bound), b, k);
    EscapedLength(st.vars, x, y, end, k);
    var low := C.Cast(C.U64, C.Cast(C.U32, C.Bin(C.Add, BaseOf(s, bound), C.Bin(C.Mul, C.Var(x), NumU(8)))));
    var high := C.Bin(C.Shl, C.Cast(C.U64, C.Bin(C.Sub, C.Var(y), C.Var(x))), Num(32));
    var a := (b - 8 * k) % TWO_32;
    EvalPacked(st.vars, low, high, a, end + k);
    C.ToTypeFixes(C.U64, Packed(a, end + k));
    RunAssign(d, ViewDescriptor(s, bound, x, y), Packed(a, end + k), depth, st);
  }

  /** The operands of a view construction: a base address, a length, a range. */
  function BaseIn(fr: Frame, inst: Inst, st: C.State): int
    requires inst.ViewConstruct?
    requires inst.source in fr.names && fr.names[inst.source] in st.vars.values
  {
    BaseAddress(inst.sourceBound, Cell(fr, inst.source, st))
  }

  lemma ViewOperands(m: Module, fr: Frame, inst: Inst, env: Env, st: C.State)
    requires Ready(m, fr, inst, env, st) && inst.ViewConstruct?
    ensures inst.source in fr.names && fr.names[inst.source] in st.vars.values && inst.dest.id in fr.names
    ensures NameOf(fr.names, inst.dest.id) == fr.names[inst.dest.id] && IsValueName(fr.names[inst.dest.id])
    ensures fr.names[inst.dest.id] in st.vars.types && st.vars.types[fr.names[inst.dest.id]] == C.U64
    ensures IsSeq(env, inst.source) && IsInt(env, inst.start) && IsInt(env, inst.end)
    ensures 0 <= env[inst.start].n < TWO_64 && 0 <= env[inst.end].n < TWO_64
    ensures Holds(st.vars, X(fr, inst.start), C.I64, CellOf(env[inst.start].n, B64))
    ensures Holds(st.vars, X(fr, inst.end), C.I64, CellOf(env[inst.end].n, B64))
    ensures 0 <= BaseIn(fr, inst, st) <= C.ARENA_BYTES && |env[inst.source].elems| < TWO_32 && inst.viewCap <= MAX_SEQUENCE_BOUND
    ensures C.Eval(BaseOf(X(fr, inst.source), inst.sourceBound), st.vars) == C.Ok(C.CValue(C.U64, BaseIn(fr, inst, st)))
    ensures C.Eval(LengthOf(X(fr, inst.source), inst.sourceBound), st.vars) == C.Ok(C.CValue(C.U64, |env[inst.source].elems|))
  {
    hide Wrap, C.Eval, BaseOf, LengthOf;
    assert Uses(inst)[0] == inst.source && Uses(inst)[1] == inst.start && Uses(inst)[2] == inst.end;
    DestName(fr, st, inst.dest);
    SequenceOperand(fr, env, st, inst.source, inst.dest.ty.elem, inst.sourceBound);
    IndexOperand(fr, env, st, inst.start);
    IndexOperand(fr, env, st, inst.end);
    SlotsInArena(env[inst.source].elems, inst.dest.ty.elem, BaseIn(fr, inst, st), st.mem);
  }

  /** Outside the envelope the reference executor fails. The emitted code is undefined,
      or leaves a view that begins before its sequence, one slot for each step of the
      start below 2^64. */
  lemma ViewEscapes(m: Module, fr: Frame, inst: Inst, env: Env, st: C.State, depth: nat)
    requires Ready(m, fr, inst, env, st) && inst.ViewConstruct? && !InEnvelope(inst, env)
    ensures inst.source in fr.names && fr.names[inst.source] in st.vars.values && inst.dest.id in fr.names
    ensures IsInt(env, inst.start) && IsInt(env, inst.end) && Evaluate(inst, env) == Trap
    ensures var start, end, f := env[inst.start].n, env[inst.end].n, C.Run(InstCode(fr.names, inst), depth, st);
            if start <= TWO_63 + end then f == C.Wrong(st.mem)
            else Assigns(st, f, fr.names[inst.dest.id],
                         Packed((BaseIn(fr, inst, st) - 8 * (TWO_64 - start)) % TWO_32, end + TWO_64 - start))
  {
    hide Wrap, C.Eval, C.Run, BaseOf, LengthOf, GuardTest, Ready, CellOf, ViewDescriptor, InstCode, BaseIn;
    var d, s := inst.dest, inst.source;
    ViewOperands(m, fr, inst, env, st);
    var es, start, end := env[s].elems, env[inst.start].n, env[inst.end].n;
    var base, x, y := BaseIn(fr, inst, st), X(fr, inst.start), X(fr, inst.end);
    OutsideGuard(st.vars, x, y, LengthOf(X(fr, s), inst.sourceBound), start, end, |es|, inst.viewCap);
    ViewSplit(fr.names, inst);
    RunGuardThen(GuardTest(x, y, LengthOf(X(fr, s), inst.sourceBound), inst.viewCap),
                 [C.Assign(fr.names[d.id], ViewDescriptor(X(fr, s), inst.sourceBound, x, y))], depth, st);
    if start > TWO_63 + end {
      RunEscape(fr.names[d.id], X(fr, s), inst.sourceBound, x, y, base, start, end, depth, st);
    }
  }

  lemma RunGuardThen(test: C.Expr, rest: seq<C.Stmt>, depth: nat, st: C.State)
    ensures C.Eval(test, st.vars).Undef? ==> C.Run([TrapIf(test)] + rest, depth, st) == C.Wrong(st.mem)
    ensures C.Eval(test, st.vars) == C.Truth(false) ==> C.Run([TrapIf(test)] + rest, depth, st) == C.Run(rest, depth, st)
  {
    hide C.Eval, C.Run;
    RunCons(TrapIf(test), rest, depth, st);
    RunOne(TrapIf(test), depth, st);
    if C.Eval(test, st.vars).Ok? {
      RunTrapIf(test, depth, st);
    } else {
      Discipline.TestUndefined(TrapIf(test), depth, st);
    }
  }

  lemma ViewSplit(names: Names, inst: Inst)
    requires inst.ViewConstruct?
    ensures var s, x, y := NameOf(names, inst.source), NameOf(names, inst.start), NameOf(names, inst.end);
            InstCode(names, inst) == [TrapIf(GuardTest(x, y, LengthOf(s, inst.sourceBound), inst.viewCap))]
                                     + [C.Assign(NameOf(names, inst.dest.id), ViewDescriptor(s, inst.sourceBound, x, y))]
  {
  }

  /** The emitted statements construct the view, or trap, as the reference executor
      does exactly when the operands are inside the envelope. */
  lemma ViewCodeExact(m: Module, fr: Frame, inst: Inst, env: Env, st: C.State, depth: nat)
    requires Ready(m, fr, inst, env, st) && inst.ViewConstruct?
    ensures Simulates(fr, inst.dest, Evaluate(inst, env), BytesOf(inst), env, st, C.Run(InstCode(fr.names, inst), depth, st))
       <==> InEnvelope(inst, env)
  {
    hide Evaluate, InEnvelope, C.Run, InstCode, WellTyped, Ready;
    if InEnvelope(inst, env) {
      SimView(m, fr, inst, env, st, depth);
    } else {
      ViewEscapes(m, fr, inst, env, st, depth);
    }
  }

  /** A start of 2^63 with an empty end is undefined behaviour, whatever the sequence. */
  lemma HalfwayStart(m: Module, fr: Frame, inst: Inst, env: Env, st: C.State, depth: nat)
    requires Ready(m, fr, inst, env, st) && inst.ViewConstruct?
    requires IsInt(env, inst.start) && IsInt(env, inst.end) && env[inst.start].n == TWO_63 && env[inst.end].n == 0
    ensures Evaluate(inst, env) == Trap && C.Run(InstCode(fr.names, inst), depth, st) == C.Wrong(st.mem)
  {
    hide C.Run, InstCode, Evaluate, Ready, BaseOf, LengthOf;
    ViewOperands(m, fr, inst, env, st);
    ViewEscapes(m, fr, inst, env, st, depth);
  }

  /** A start of 2^64 - 1 with an empty end passes the guard of every capacity from
      one up: the view is the slot before its sequence. */
  lemma LastStart(m: Module, fr: Frame, inst: Inst, env: Env, st: C.State, depth: nat)
    requires Ready(m, fr, inst, env, st) && inst.ViewConstruct? && inst.viewCap >= 1
    requires IsInt(env, inst.start) && IsInt(env, inst.end) && env[inst.start].n == TWO_64 - 1 && env[inst.end].n == 0
    ensures inst.source in fr.names && fr.names[inst.source] in st.vars.values && inst.dest.id in fr.names
    ensures Evaluate(inst, env) == Trap
    ensures BaseIn(fr, inst, st) >= 8 ==>
              Assigns(st, C.Run(InstCode(fr.names, inst), depth, st), fr.names[inst.dest.id], Packed(BaseIn(fr, inst, st) - 8, 1))
  {
    hide C.Run, InstCode, Evaluate, Ready, BaseOf, LengthOf, Assigns, Packed, BaseIn;
    ViewOperands(m, fr, inst, env, st);
    ViewEscapes(m, fr, inst, env, st, depth);
  }
}
