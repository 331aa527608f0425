/** Blocks: instruction lists after lowering, terminators, and which values a
    block's entry is sure to have. */
module Blocks {
  import opened Words
  import opened Mncs
  import opened Emit
  import opened IntegerLowering
  import opened Represent
  import opened Envelope
  import opened Relation
  import opened ScalarSimulation
  import opened ViewSimulation
  import opened SequenceSimulation
  import opened CopySimulation
  import opened Discipline
  import opened Interpreter
  import opened Validation
  import opened Transfers
  import C = CLang
  import opened Execution

  // ---------- Instruction lists ----------

  lemma {:induction false} InstsCodeAppend(names: Names, a: seq<Inst>, b: seq<Inst>)
    ensures InstsCode(names, a + b) == InstsCode(names, a) + InstsCode(names, b)
    decreases |a|
  {
    hide InstCode;
    if a == [] {
      assert a + b == b;
    } else {
      assert (a + b)[0] == a[0] && (a + b)[1..] == a[1..] + b;
      InstsCodeAppend(names, a[1..], b);
      assert InstsCode(names, a) == InstCode(names, a[0]) + InstsCode(names, a[1..]);
    }
  }

  /** A block's code is its instructions' code, one after another. */
  lemma CodeSplit(names: Names, insts: seq<Inst>)
    requires insts != []
    ensures InstsCode(names, Flatten(LowerAll(insts))) == LoweredCode(names, insts[0]) + InstsCode(names, Flatten(LowerAll(insts[1..])))
  {
    hide InstCode, Lower;
    var all := LowerAll(insts);
    assert all[0] == Lower(insts[0]) && all[1..] == LowerAll(insts[1..]);
    FlattenOne(all[0]);
    InstsCodeAppend(names, Flatten([all[0]]), Flatten(all[1..]));
  }

  /** Source instructions: the ones lowering has not produced. */
  predicate Source(inst: Inst) { !inst.CellAlloc? && !inst.CellStore? && !inst.Group? }

  lemma LoweredPlain(names: Names, inst: Inst)
    requires Source(inst) && !inst.SequenceConstruct?
    ensures LoweredCode(names, inst) == InstCode(names, inst)
  {
    hide InstCode;
    FlattenOne(Lower(inst));
    assert InstsCode(names, [inst]) == InstCode(names, inst) + InstsCode(names, [inst][1..]);
  }

  /** Every source instruction other than a call is tame after lowering. */
  lemma LoweredTame(names: Names, inst: Inst)
    requires Source(inst) && !inst.Call? && (inst.SequenceConstruct? ==> inst.dest.ty.TSeq?)
    ensures Tame(LoweredCode(names, inst), NameOf(names, inst.dest.id))
  {
    hide InstCode, InstsCode, Lower, LowerStores, LoweredCode;
    if inst.SequenceConstruct? {
      ConstructCode(names, inst);
      var d, n := NameOf(names, inst.dest.id), |inst.inputs|;
      TameFew([C.Alloc(d, Num(n * 8))], d);
      TameAppend([C.Alloc(d, Num(n * 8))], InstsCode(names, LowerStores(inst.dest.id, inst.inputs, SlotWidthOf(inst.dest.ty.elem), 0)), d);
    } else {
      LoweredPlain(names, inst);
      InstTame(names, inst);
    }
  }

  /** Every source instruction other than a call does what the reference executor does. */
  lemma SimInst(m: Module, fr: Frame, inst: Inst, env: Env, st: C.State, depth: nat)
    requires Ready(m, fr, inst, env, st) && InEnvelope(inst, env) && inst.dest.id !in Uses(inst) && !inst.Call?
    ensures Simulates(fr, inst.dest, Evaluate(inst, env), BytesOf(inst), env, st, C.Run(LoweredCode(fr.names, inst), depth, st))
  {
    hide Simulates, Evaluate, InEnvelope, C.Run, InstCode, LoweredCode, Related, FrameOk;
    if inst.SequenceConstruct? {
      SimConstruct(m, fr, inst, env, st, depth);
    } else {
      LoweredPlain(fr.names, inst);
      match inst
      case Const(_, _) => SimConst(m, fr, inst, env, st, depth);
      case Integer(_, _, _, _, _, _) => SimInteger(m, fr, inst, env, st, depth);
      case Compare(_, _, _, _, _, _) => SimCompare(m, fr, inst, env, st, depth);
      case Boolean(_, _, _, _) => SimBoolean(m, fr, inst, env, st, depth);
      case BooleanCompare(_, _, _, _) => SimBoolean(m, fr, inst, env, st, depth);
      case BooleanNot(_, _) => SimNot(m, fr, inst, env, st, depth);
      case Convert(_, _, _) => SimConvert(m, fr, inst, env, st, depth);
      case Select(_, _, _, _) => SimSelect(m, fr, inst, env, st, depth);
      case SequenceReplace(_, _, _, _, _, _, _) => SimReplace(m, fr, inst, env, st, depth);
      case SequenceCopy(_, _, _, _, _, _, _, _, _, _) => SimCopy(m, fr, inst, env, st, depth);
      case SequenceProject(_, _, _, _, _, _) => SimProject(m, fr, inst, env, st, depth);
      case SequenceLength(_, _, _) => SimLength(m, fr, inst, env, st, depth);
      case ViewConstruct(_, _, _, _, _, _) => SimView(m, fr, inst, env, st, depth);
      case ViewNarrow(_, _, _) => SimNarrow(m, fr, inst, env, st, depth);
      case BoundCheck(_, _, _, _) => SimBoundCheck(m, fr, inst, env, st, depth);
    }
  }

  // ---------- Terminators ----------

  lemma {:induction false} TransferPlain(names: Names, params: seq<Val>, args: seq<Id>)
    ensures C.CallFree(TransferCode(names, params, args)) && NoReset(TransferCode(names, params, args))
    decreases |params|
  {
    if params != [] && args != [] {
      TransferPlain(names, params[1..], args[1..]);
      var move := if params[0].id != args[0] then [C.Assign(NameOf(names, params[0].id), C.Var(NameOf(names, args[0])))] else [];
      CallFreeAppend(move, TransferCode(names, params[1..], args[1..]));
      NoResetAppend(move, TransferCode(names, params[1..], args[1..]));
    }
  }

  lemma JumpPlain(names: Names, blocks: seq<Block>, target: Id, args: seq<Id>)
    ensures C.CallFree(JumpCode(names, blocks, target, args)) && NoReset(JumpCode(names, blocks, target, args))
  {
    var k := FindBlock(blocks, target);
    var moves := if k.Some? && k.value < |blocks| then TransferCode(names, blocks[k.value].params, args) else [];
    if k.Some? && k.value < |blocks| {
      TransferPlain(names, blocks[k.value].params, args);
    }
    var last := [C.Goto(if k.Some? then k.value else 0)];
    CallFreeAppend(moves, last);
    NoResetAppend(moves, last);
  }

  lemma TermPlain(names: Names, f: Function, term: Term, hasArena: bool)
    ensures C.CallFree(TermCode(names, f, term, hasArena)) && NoReset(TermCode(names, f, term, hasArena))
  {
    match term
    case Return(v) =>
      var check := if hasArena then [C.LeaveIfFailed] else [];
      CallFreeAppend(check, [C.ReturnValue(C.Var(NameOf(names, v)))]);
      NoResetAppend(check, [C.ReturnValue(C.Var(NameOf(names, v)))]);
    case Jump(t, args) => JumpPlain(names, f.blocks, t, args);
    case Branch(_, t, targs, e, eargs) =>
      JumpPlain(names, f.blocks, t, targs);
      JumpPlain(names, f.blocks, e, eargs);
    case Fail =>
  }

  /** A returned value, as the `int64_t` out-parameter carries it. */
  ghost predicate Delivers(v: Value, ty: Ty, m: C.Memory) {
    m.status == 0 && Rep(v, ty, C.ToType(CTypeOf(ty), m.value), m)
  }

  lemma CarriedBack(ty: Ty, c: int)
    requires C.Fits(CTypeOf(ty), c)
    ensures C.ToType(CTypeOf(ty), C.ToType(C.I64, c)) == c
  {
    var t := CTypeOf(ty);
    WrapResidue(c, TWO_64, true);
    ModOfMod(c, TWO_64, C.ModulusOf(t), TWO_64 / C.ModulusOf(t));
    ModOfMod(C.ToType(C.I64, c), TWO_64, C.ModulusOf(t), TWO_64 / C.ModulusOf(t));
    WrapCongruent(C.ToType(C.I64, c), c, C.ModulusOf(t), C.Signed(t));
    C.ToTypeFixes(t, c);
  }

  /** How a terminator's code ends, beside the reference executor's. */
  ghost predicate Lands(fr: Frame, f: Function, o: Onward, st: C.State, flow: C.Flow) {
    match o
    case GoesTo(k, env) => flow.Jump? && flow.pc == k && k < |f.blocks| && flow.st.mem == st.mem && Related(fr, env, flow.st)
    case Ends(Returned(v)) => flow.Exit? && Extends(st.mem, flow.mem) && Took(st.mem, flow.mem, 0) && !flow.mem.failed && Delivers(v, f.result, flow.mem)
    case Ends(Failed) => flow == C.Left(st.mem, 1)
    case Ends(_) => false
  }

  lemma SimReturn(fr: Frame, f: Function, v: Id, hasArena: bool, env: Env, st: C.State, depth: nat)
    requires FrameOk(fr) && Related(fr, env, st) && v in env && Typed(fr.types, v, f.result)
    ensures Lands(fr, f, Ends(Returned(env[v])), st, C.Run(TermCode(fr.names, f, Return(v), hasArena), depth, st))
  {
    hide C.Eval, C.Run, Wrap;
    OperandHolds(fr, env, st, v);
    var c, back := Cell(fr, v, st), C.ReturnValue(C.Var(fr.names[v]));
    EvalVar(st.vars, fr.names[v], CTypeOf(f.result), c);
    RunOne(back, depth, st);
    RunOne(C.LeaveIfFailed, depth, st);
    RunCons(C.LeaveIfFailed, [back], depth, st);
    assert [] + [back] == [back];
    var after := st.mem.(status := 0, value := C.ToType(C.I64, c));
    CarriedBack(f.result, c);
    RepKept(env[v], f.result, c, st.mem, after);
  }

  lemma SimJump(fr: Frame, f: Function, dom: map<Id, set<Id>>, have: set<Id>, from: Id, target: Id, args: seq<Id>, env: Env, st: C.State, depth: nat)
    requires FrameOk(fr) && Related(fr, env, st) && have <= env.Keys && EdgeOk(f, dom, fr.types, have, from, target, args)
    requires forall k, i | 0 <= k < |f.blocks| && 0 <= i < |f.blocks[k].params| :: Typed(fr.types, f.blocks[k].params[i].id, f.blocks[k].params[i].ty)
    ensures Transfer(f, env, target, args).At?
    ensures Lands(fr, f, Land(Transfer(f, env, target, args)), st, C.Run(JumpCode(fr.names, f.blocks, target, args), depth, st))
  {
    hide C.Run, Related, FrameOk;
    var k := FindBlock(f.blocks, target).value;
    var params := f.blocks[k].params;
    forall i | 0 <= i < |args|
      ensures args[i] in env
    {
      assert args[i] in have;
    }
    OrderedBinds(env, params, args);
    RunTransfer(fr, env, st, params, args, depth);
    var moves := TransferCode(fr.names, params, args);
    RunAppend(moves, [C.Goto(k)], depth, st);
    RunOne(C.Goto(k), depth, C.Run(moves, depth, st).st);
  }

  lemma SimTerm(fr: Frame, f: Function, dom: map<Id, set<Id>>, have: set<Id>, from: Id, term: Term, hasArena: bool, env: Env, st: C.State, depth: nat)
    requires FrameOk(fr) && Related(fr, env, st) && have <= env.Keys && TermOk(f, dom, fr.types, have, from, term)
    requires forall k, i | 0 <= k < |f.blocks| && 0 <= i < |f.blocks[k].params| :: Typed(fr.types, f.blocks[k].params[i].id, f.blocks[k].params[i].ty)
    ensures Lands(fr, f, Terminate(f, term, env), st, C.Run(TermCode(fr.names, f, term, hasArena), depth, st))
  {
    hide C.Run, C.Eval, JumpCode, Transfer, FrameOk;
    match term
    case Return(v) =>
      SimReturn(fr, f, v, hasArena, env, st, depth);
    case Jump(t, args) =>
      SimJump(fr, f, dom, have, from, t, args, env, st, depth);
    case Branch(c, t, targs, e, eargs) =>
      BoolOperand(fr, env, st, c);
      EvalVar(st.vars, fr.names[c], C.I32, if env[c].b then 1 else 0);
      var pick := C.If(C.Var(NameOf(fr.names, c)), JumpCode(fr.names, f.blocks, t, targs), JumpCode(fr.names, f.blocks, e, eargs));
      RunOne(pick, depth, st);
      if env[c].b {
        SimJump(fr, f, dom, have, from, t, targs, env, st, depth);
      } else {
        SimJump(fr, f, dom, have, from, e, eargs, env, st, depth);
      }
    case Fail =>
      RunOne(C.Leave(1), depth, st);
  }
}
