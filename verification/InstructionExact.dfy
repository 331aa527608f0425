/** For every instruction other than a call, the envelope is exact: the emitted code
    does what the reference executor does inside it, and never outside it. */
module InstructionExact {
  import opened Words
  import opened Mncs
  import opened Emit
  import opened IntegerLowering
  import opened Represent
  import opened Envelope
  import opened Relation
  import opened ScalarSimulation
  import opened SequenceSimulation
  import opened Blocks
  import ViewEscape
  import C = CLang
  import opened Execution

  // ---------- Code without a guard ----------

  predicate Plain(s: C.Stmt) { s.Declare? || s.Assign? || s.Alloc? || s.Load? || s.Store? || s.CopySlot? }

  predicate Straight(ss: seq<C.Stmt>) { forall i | 0 <= i < |ss| :: Plain(ss[i]) }

  lemma {:induction false} StraightNeverExits(ss: seq<C.Stmt>, depth: nat, st: C.State)
    requires Straight(ss)
    ensures !C.Run(ss, depth, st).Exit?
  {
    hide C.Eval;
    if ss != [] {
      RunCons(ss[0], ss[1..], depth, st);
      assert ss == [ss[0]] + ss[1..];
      RunOne(ss[0], depth, st);
      var f := C.Run([ss[0]], depth, st);
      hide C.Run;
      if f.Next? {
        StraightNeverExits(ss[1..], depth, f.st);
      }
    }
  }

  lemma {:induction false} StraightLanes(d: string, s: string, w: SlotWidth, from: nat, length: nat)
    requires from <= length
    ensures Straight(CopyLanes(d, s, w, from, length))
    decreases length - from
  {
    if from < length {
      StraightLanes(d, s, w, from + 1, length);
    }
  }

  lemma {:induction false} StraightSpans(d: string, into: string, at: string, base: C.Expr, start: string, n: string, w: SlotWidth, from: nat, length: nat)
    requires from <= length
    ensures Straight(SpanLanes(d, into, at, base, start, n, w, from, length))
    decreases length - from
  {
    if from < length {
      StraightSpans(d, into, at, base, start, n, w, from + 1, length);
      assert Straight(SpanLane(d, into, at, base, start, n, w, from));
      hide SpanLane;
    }
  }

  predicate TakesEvidence(inst: Inst) { inst.SequenceReplace? || inst.SequenceCopy? || inst.SequenceProject? }

  /** Static evidence leaves the guard out. */
  lemma StaticStraight(names: Names, inst: Inst)
    requires TakesEvidence(inst) && !inst.evidence.RuntimeChecked?
    ensures Straight(InstCode(names, inst))
  {
    match inst
    case SequenceReplace(d, s, _, _, n, w, _) => StraightLanes(NameOf(names, d.id), NameOf(names, s), w, 0, n);
    case SequenceCopy(d, into, at, s, start, n, bound, _, length, w) =>
      StraightSpans(NameOf(names, d.id), NameOf(names, into), NameOf(names, at), BaseOf(NameOf(names, s), bound),
                    NameOf(names, start), NameOf(names, n), w, 0, length);
    case SequenceProject(_, _, _, _, _, _) =>
  }

  // ---------- Outside the envelope ----------

  lemma OperandsBound(m: Module, fr: Frame, inst: Inst, env: Env, st: C.State, id: Id, k: nat)
    requires Ready(m, fr, inst, env, st) && k < |Uses(inst)| && Uses(inst)[k] == id
    ensures id in env && id in fr.types && Carries(fr, id, env[id], st)
  {
  }

  /** A static claim that is false fails in the reference executor; the emitted code goes on. */
  lemma StaticOutside(m: Module, fr: Frame, inst: Inst, env: Env, st: C.State, depth: nat)
    requires Ready(m, fr, inst, env, st) && TakesEvidence(inst) && !InEnvelope(inst, env)
    ensures Evaluate(inst, env) == if inst.SequenceProject? then Bad else Trap
    ensures !Simulates(fr, inst.dest, Evaluate(inst, env), BytesOf(inst), env, st, C.Run(InstCode(fr.names, inst), depth, st))
  {
    hide C.Run, InstCode;
    StaticStraight(fr.names, inst);
    StraightNeverExits(InstCode(fr.names, inst), depth, st);
    StaticFails(m, fr, inst, env, st);
  }

  lemma StaticFails(m: Module, fr: Frame, inst: Inst, env: Env, st: C.State)
    requires Ready(m, fr, inst, env, st) && TakesEvidence(inst) && !InEnvelope(inst, env)
    ensures Evaluate(inst, env) == if inst.SequenceProject? then Bad else Trap
  {
    hide Ready, Evaluate, InEnvelope;
    match inst
    case SequenceReplace(_, _, _, _, _, _, _) => ReplaceFails(m, fr, inst, env, st);
    case SequenceCopy(_, _, _, _, _, _, _, _, _, _) => CopyFails(m, fr, inst, env, st);
    case SequenceProject(_, _, _, _, _, _) => ProjectFails(m, fr, inst, env, st);
  }

  lemma ReplaceFails(m: Module, fr: Frame, inst: Inst, env: Env, st: C.State)
    requires Ready(m, fr, inst, env, st) && inst.SequenceReplace? && !InEnvelope(inst, env)
    ensures Evaluate(inst, env) == Trap
  {
    OperandsBound(m, fr, inst, env, st, inst.source, 0);
    OperandsBound(m, fr, inst, env, st, inst.index, 1);
    OperandsBound(m, fr, inst, env, st, inst.element, 2);
    hide FrameOk, Related;
  }

  lemma CopyFails(m: Module, fr: Frame, inst: Inst, env: Env, st: C.State)
    requires Ready(m, fr, inst, env, st) && inst.SequenceCopy? && !InEnvelope(inst, env)
    ensures Evaluate(inst, env) == Trap
  {
    OperandsBound(m, fr, inst, env, st, inst.destination, 0);
    OperandsBound(m, fr, inst, env, st, inst.source, 2);
    hide FrameOk, Related;
  }

  lemma ProjectFails(m: Module, fr: Frame, inst: Inst, env: Env, st: C.State)
    requires Ready(m, fr, inst, env, st) && inst.SequenceProject? && !InEnvelope(inst, env)
    ensures Evaluate(inst, env) == Bad
  {
    hide FrameOk, Related;
  }

  /** The destination's variable after a step that yields an integer. */
  lemma YieldedCell(fr: Frame, d: Val, v: int, env: Env, st: C.State, f: C.Flow)
    requires d.ty.TInt? && Typed(fr.types, d.id, d.ty) && d.id in fr.names && Valid(st.mem)
    requires Simulates(fr, d, Yields(IntV(v)), 0, env, st, f)
    ensures f.Next? && fr.names[d.id] in f.st.vars.values && f.st.vars.values[fr.names[d.id]] == CellOf(v, d.ty.bits)
  {
    NothingFits(st.mem);
    var more := env[d.id := IntV(v)];
    assert Carries(fr, d.id, more[d.id], f.st);
  }

  lemma IntegerOutside(m: Module, fr: Frame, inst: Inst, env: Env, st: C.State, depth: nat)
    requires Ready(m, fr, inst, env, st) && inst.Integer? && !InEnvelope(inst, env)
    ensures !Simulates(fr, inst.dest, Evaluate(inst, env), BytesOf(inst), env, st, C.Run(InstCode(fr.names, inst), depth, st))
  {
    hide IntegerEnvelope, IntegerCode, IntegerOutcome, EvaluateInteger, C.Run;
    var d, b, s := inst.dest, inst.dest.ty.bits, inst.dest.ty.signed;
    assert Uses(inst)[0] == inst.lhs && Uses(inst)[1] == inst.rhs;
    DestName(fr, st, d);
    IntOperand(fr, env, st, inst.lhs, b, s);
    IntOperand(fr, env, st, inst.rhs, b, s);
    var l, r := env[inst.lhs].n, env[inst.rhs].n;
    RunInteger(fr.names[d.id], d.ty, inst.op, inst.intent, inst.permitted, X(fr, inst.lhs), X(fr, inst.rhs), l, r, depth, st);
    IntegerExact(inst.op, b, s, inst.intent, inst.permitted, l, r);
    var v, f := EvaluateInteger(inst.op, b, s, inst.intent, l, r), C.Run(InstCode(fr.names, inst), depth, st);
    if Simulates(fr, d, Evaluate(inst, env), BytesOf(inst), env, st, f) && v.Some? {
      YieldedCell(fr, d, v.value, env, st, f);
    }
  }

  lemma ConvertOutside(m: Module, fr: Frame, inst: Inst, env: Env, st: C.State, depth: nat)
    requires Ready(m, fr, inst, env, st) && inst.Convert? && !InEnvelope(inst, env)
    ensures !Simulates(fr, inst.dest, Evaluate(inst, env), BytesOf(inst), env, st, C.Run(InstCode(fr.names, inst), depth, st))
  {
    hide Wrap, ConvertEnvelope, C.Run, C.Eval;
    var d, b, s := inst.dest, inst.dest.ty.bits, inst.dest.ty.signed;
    assert Uses(inst)[0] == inst.src;
    DestName(fr, st, d);
    OperandHolds(fr, env, st, inst.src);
    var c, n := Cell(fr, inst.src, st), env[inst.src].n;
    EvalVar(st.vars, X(fr, inst.src), CTypeOf(inst.from), c);
    EvalCast(st.vars, CellType(b), C.Var(X(fr, inst.src)), C.CValue(CTypeOf(inst.from), c));
    Idempotent(CellType(b), c);
    RunAssign(fr.names[d.id], C.Cast(CellType(b), C.Var(X(fr, inst.src))), CellOf(c, b), depth, st);
    ConvertExact(inst.from.bits, inst.from.signed, b, s, n);
    var f := C.Run(InstCode(fr.names, inst), depth, st);
    if Simulates(fr, d, Evaluate(inst, env), BytesOf(inst), env, st, f) {
      YieldedCell(fr, d, WrapToBits(n, b, s), env, st, f);
    }
  }

  /** The emitted statements of an instruction do what the reference executor does if
      and only if its operands are inside the envelope. */
  lemma InstExact(m: Module, fr: Frame, inst: Inst, env: Env, st: C.State, depth: nat)
    requires Ready(m, fr, inst, env, st) && inst.dest.id !in Uses(inst) && !inst.Call?
    ensures Simulates(fr, inst.dest, Evaluate(inst, env), BytesOf(inst), env, st, C.Run(LoweredCode(fr.names, inst), depth, st))
       <==> InEnvelope(inst, env)
  {
    hide Evaluate, C.Run, InstCode, LoweredCode, Related, FrameOk, Simulates;
    if InEnvelope(inst, env) {
      SimInst(m, fr, inst, env, st, depth);
    } else {
      LoweredPlain(fr.names, inst);
      if inst.Integer? {
        IntegerOutside(m, fr, inst, env, st, depth);
      } else if inst.Convert? {
        ConvertOutside(m, fr, inst, env, st, depth);
      } else if inst.ViewConstruct? {
        ViewEscape.ViewCodeExact(m, fr, inst, env, st, depth);
      } else {
        StaticOutside(m, fr, inst, env, st, depth);
      }
    }
  }
}
