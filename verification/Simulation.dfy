/** The generated module computes what the reference executor computes: block by
    block, call by call, for every step count. */
module Simulation {
  import opened Words
  import opened Mncs
  import opened Emit
  import opened Naming
  import opened IntegerLowering
  import opened Represent
  import opened Envelope
  import opened Relation
  import opened ScalarSimulation
  import opened SequenceSimulation
  import opened Discipline
  import opened Interpreter
  import opened Validation
  import opened Blocks
  import opened Poison
  import opened Entry
  import opened Availability
  import C = CLang
  import opened Execution

  // ---------- Agreement ----------

  /** What an activation's end shows of an outcome. */
  ghost predicate Reports(o: Outcome, ty: Ty, before: C.Memory, flow: C.Flow) {
    match o
    case Returned(v) => flow.Exit? && Extends(before, flow.mem) && Delivers(v, ty, flow.mem)
    case Failed => flow.Exit? && flow.mem.status == 1
    case DepthExhausted => flow.Exit? && flow.mem.status == 3
    case Running => flow.Spent?
    case Invalid => false
  }

  /** What a run does to the arena: it runs out exactly when the reference run needs
      more than is left, and otherwise allocates exactly what that run needs. */
  ghost predicate Spends(before: C.Memory, used: nat, after: C.Memory) {
    if Overruns(before, used) then Exhausted(after) else !after.failed && Took(before, after, used)
  }

  /** A run inside the envelope ends as the reference run does, while the arena lasts. */
  ghost predicate Agrees(r: Result, ty: Ty, before: C.Memory, flow: C.Flow) {
    r.exact ==> Spends(before, r.used, C.FlowMemory(flow)) && (!Overruns(before, r.used) ==> Reports(r.outcome, ty, before, flow))
  }

  /** The same for an instruction list, which may also run to its end. */
  ghost predicate Follows(fr: Frame, pr: Progress, before: C.Memory, flow: C.Flow) {
    pr.exact ==>
      && Spends(before, pr.used, C.FlowMemory(flow))
      && (!Overruns(before, pr.used) ==>
            match pr
            case Done(env, _, _) => flow.Next? && Related(fr, env, flow.st) && Extends(before, flow.st.mem)
            case Stopped(o, _, _) => !o.Returned? && Reports(o, TBool, before, flow))
  }

  /** Generated depths run ahead of reference depths by what the budget leaves unused. */
  predicate DepthsMatch(depth: nat, cdepth: nat, limit: nat) {
    limit <= MAX_CALL_DEPTH && cdepth == depth + (MAX_CALL_DEPTH - limit)
  }

  function CodeOf(m: Module, n: string): C.Function
    requires n in m
  {
    FunctionCode(m[n], NeedsArena(m))
  }

  // ---------- Straight-line instructions ----------

  lemma SimStep(m: Module, fr: Frame, inst: Inst, env: Env, depth: nat, cdepth: nat, limit: nat, st: C.State, fuel: nat)
    requires Ready(m, fr, inst, env, st) && inst.dest.id !in Uses(inst) && !inst.Call?
    ensures Follows(fr, RunInst(m, inst, env, depth, limit, fuel), st.mem,
                    C.Exec(ModuleCode(m), LoweredCode(fr.names, inst), cdepth, st, fuel))
  {
    hide Evaluate, InEnvelope, C.Run, C.Exec, LoweredCode, FrameOk, Related, WellTyped, ModuleCode;
    SourceTyped(m, fr.types, inst);
    LoweredTame(fr.names, inst);
    TameShape(LoweredCode(fr.names, inst), NameOf(fr.names, inst.dest.id));
    CallFreeExec(ModuleCode(m), LoweredCode(fr.names, inst), cdepth, st, fuel);
    ExtendsSelf(fr, env, st);
    if InEnvelope(inst, env) {
      SimInst(m, fr, inst, env, st, cdepth);
      var f, e := C.Run(LoweredCode(fr.names, inst), cdepth, st), Evaluate(inst, env);
      if e.Yields? && !Overruns(st.mem, BytesOf(inst)) {
        ExtendsSelf(fr, env[inst.dest.id := e.v], f.st);
      }
    }
  }

  // ---------- Calls ----------

  /** Argument cells, in order. */
  function ArgCells(fr: Frame, args: seq<Id>, st: C.State): (r: seq<int>)
    ensures |r| == |args|
  {
    seq(|args|, i requires 0 <= i < |args| => Carried(fr, args[i], st))
  }

  lemma EvalArg(fr: Frame, env: Env, st: C.State, arg: Id)
    requires FrameOk(fr) && Related(fr, env, st) && arg in env
    ensures C.Eval(C.Var(NameOf(fr.names, arg)), st.vars).Ok?
    ensures C.Eval(C.Var(NameOf(fr.names, arg)), st.vars).v.n == Carried(fr, arg, st)
  {
    hide C.Eval;
    OperandHolds(fr, env, st, arg);
    EvalVar(st.vars, fr.names[arg], CTypeOf(fr.types[arg]), Cell(fr, arg, st));
  }

  lemma {:induction false} EvalVarArgs(fr: Frame, env: Env, st: C.State, args: seq<Id>)
    requires FrameOk(fr) && Related(fr, env, st) && AllIn(args, env)
    ensures C.EvalArgs(VarArgs(fr.names, args), st.vars) == (true, ArgCells(fr, args, st))
    decreases |args|
  {
    if args != [] {
      hide C.Eval, FrameOk, Related;
      EvalArg(fr, env, st, args[0]);
      AllInTail(args, env);
      EvalVarArgs(fr, env, st, args[1..]);
      assert VarArgs(fr.names, args)[1..] == VarArgs(fr.names, args[1..]);
      assert ArgCells(fr, args, st) == [Carried(fr, args[0], st)] + ArgCells(fr, args[1..], st);
    }
  }

  lemma AllInTail(args: seq<Id>, env: Env)
    requires AllIn(args, env) && args != []
    ensures AllIn(args[1..], env)
  {
    forall i | 0 <= i < |args[1..]|
      ensures args[1..][i] in env
    {
      assert args[1..][i] == args[i + 1];
    }
  }

  lemma ArgsRepresented(fr: Frame, env: Env, st: C.State, args: seq<Id>, params: seq<Val>)
    requires FrameOk(fr) && Related(fr, env, st) && AllIn(args, env) && |args| == |params|
    requires forall i | 0 <= i < |args| :: Typed(fr.types, args[i], params[i].ty)
    ensures ArgsRep(Lookup(args, env), params, ArgCells(fr, args, st), st.mem)
  {
    forall i | 0 <= i < |args|
      ensures Rep(env[args[i]], params[i].ty, Carried(fr, args[i], st), st.mem)
    {
      OperandHolds(fr, env, st, args[i]);
    }
  }

  /** After the callee: an early return, or the value taken into the destination. */
  lemma AfterCall(fr: Frame, d: Val, r: Result, env: Env, st: C.State, flow: C.Flow, depth: nat, p: C.Program, fuel: nat)
    requires FrameOk(fr) && Related(fr, env, st) && Typed(fr.types, d.id, d.ty)
    requires Agrees(r, d.ty, st.mem, flow) && !flow.Next? && !flow.Jump?
    ensures var next := if flow.Exit? then C.Next(st.(mem := flow.mem)) else flow;
            var rest := [C.ReturnIfStatus, C.TakeValue(NameOf(fr.names, d.id), CTypeOf(d.ty))];
            var f := if next.Next? then C.Exec(p, rest, depth, next.st, fuel) else next;
            Follows(fr, if r.outcome.Returned? then Done(env[d.id := r.outcome.v], r.exact, r.used) else Stopped(r.outcome, r.exact, r.used), st.mem, f)
  {
    hide C.Eval, C.Exec, C.Run, Wrap, FrameOk;
    if flow.Exit? {
      var st1 := st.(mem := flow.mem);
      var take := C.TakeValue(NameOf(fr.names, d.id), CTypeOf(d.ty));
      assert [take][1..] == [] && [C.ReturnIfStatus, take][1..] == [take];
      CallFreeTwo(take);
      CallFreeExec(p, [C.ReturnIfStatus, take], depth, st1, fuel);
      assert [C.ReturnIfStatus] + [take] == [C.ReturnIfStatus, take];
      RunCons(C.ReturnIfStatus, [take], depth, st1);
      RunOne(C.ReturnIfStatus, depth, st1);
      RunOne(take, depth, st1);
      if r.exact && !Overruns(st.mem, r.used) && r.outcome.Returned? {
        Taken(fr, d, r.outcome.v, env, st, flow.mem, depth);
      }
    }
  }

  lemma CallFreeTwo(take: C.Stmt)
    requires take.TakeValue?
    ensures C.CallFree([C.ReturnIfStatus, take])
  {
    assert [C.ReturnIfStatus, take][1..] == [take] && [take][1..] == [];
  }

  lemma Taken(fr: Frame, d: Val, v: Value, env: Env, st: C.State, mem: C.Memory, depth: nat)
    requires FrameOk(fr) && Related(fr, env, st) && Typed(fr.types, d.id, d.ty)
    requires Extends(st.mem, mem) && !mem.failed && Delivers(v, d.ty, mem)
    ensures var f := C.Step(C.TakeValue(NameOf(fr.names, d.id), CTypeOf(d.ty)), depth, st.(mem := mem));
            f.Next? && f.st.mem == mem && Related(fr, env[d.id := v], f.st)
  {
    hide Wrap;
    DestName(fr, st, d);
    Idempotent(CTypeOf(d.ty), mem.value);
    var f := C.Step(C.TakeValue(NameOf(fr.names, d.id), CTypeOf(d.ty)), depth, st.(mem := mem));
    BindDest(fr, env, st, d, v, f.st);
  }

  /** The code of a call, up to the callee's activation. */
  lemma ExecCall(p: C.Program, fr: Frame, inst: Inst, env: Env, st: C.State, cdepth: nat, fuel: nat)
    requires inst.Call? && FrameOk(fr) && Related(fr, env, st) && AllIn(inst.args, env) && inst.callee in p && cdepth <= MAX_CALL_DEPTH
    ensures var flow := C.Activate(p, p[inst.callee], ArgCells(fr, inst.args, st), cdepth + 1, st.mem, fuel);
            var next := if flow.Exit? then C.Next(st.(mem := flow.mem)) else flow;
            var rest := [C.ReturnIfStatus, C.TakeValue(NameOf(fr.names, inst.dest.id), CTypeOf(inst.dest.ty))];
            C.Exec(p, LoweredCode(fr.names, inst), cdepth, st, fuel) == if next.Next? then C.Exec(p, rest, cdepth, next.st, fuel) else next
  {
    hide C.Eval, C.Run, Wrap, FrameOk, Related, C.Activate, C.Step, C.EvalArgs, LoweredCode;
    LoweredPlain(fr.names, inst);
    var call := C.Call(inst.callee, VarArgs(fr.names, inst.args));
    var rest := [C.ReturnIfStatus, C.TakeValue(NameOf(fr.names, inst.dest.id), CTypeOf(inst.dest.ty))];
    assert InstCode(fr.names, inst) == [call] + rest;
    ExecCons(p, call, rest, cdepth, st, fuel);
    EvalVarArgs(fr, env, st, inst.args);
    ExecOneCall(p, call, cdepth, st, fuel);
    ModUniqueDepth(cdepth);
  }

  lemma ModUniqueDepth(cdepth: nat)
    requires cdepth <= MAX_CALL_DEPTH
    ensures (cdepth + 1) % TWO_64 == cdepth + 1
  {
    ModUnique(cdepth + 1, TWO_64, 0, cdepth + 1);
  }

  lemma ExecOneCall(p: C.Program, call: C.Stmt, depth: nat, st: C.State, fuel: nat)
    requires call.Call?
    ensures C.Exec(p, [call], depth, st, fuel) == C.Invoke(p, call.callee, call.args, depth, st, fuel)
  {
    assert [call][1..] == [];
  }

  lemma {:induction false} LoopEnds(p: C.Program, f: C.Function, pc: int, depth: nat, st: C.State, fuel: nat)
    ensures !C.Loop(p, f, pc, depth, st, fuel).Next? && !C.Loop(p, f, pc, depth, st, fuel).Jump?
    decreases fuel
  {
    if fuel > 0 {
      hide C.Exec, C.SwitchTail;
      var body := C.Exec(p, C.SwitchTail(f.cases, pc), depth, st, fuel - 1);
      if body.Jump? {
        LoopEnds(p, f, body.pc, depth, body.st, fuel - 1);
      } else if body.Next? {
        LoopEnds(p, f, pc, depth, body.st, fuel - 1);
      }
    }
  }

  lemma ActivateEnds(p: C.Program, f: C.Function, args: seq<int>, depth: nat, m: C.Memory, fuel: nat)
    ensures !C.Activate(p, f, args, depth, m, fuel).Next? && !C.Activate(p, f, args, depth, m, fuel).Jump?
  {
    hide C.Exec, C.SwitchTail, C.Loop, C.Run;
    if |args| == |f.params| {
      var st := C.State(C.Locals(C.DeclTypes(f.params + f.decls), C.BindParams(f.params, args)), m);
      var entered := C.Run(f.prologue, depth, st);
      if entered.Next? {
        LoopEnds(p, f, 0, depth, entered.st, fuel);
      }
    }
  }

  // ---------- The prologue ----------

  function Reset(hasArena: bool, depth: nat, st: C.State): C.State {
    if hasArena && depth == 0 then st.(mem := st.mem.(failed := false, exhausted := false)) else st
  }

  lemma RunPrologue(hasArena: bool, depth: nat, st: C.State)
    ensures C.Run(Prologue(hasArena), depth, st) == if depth > MAX_CALL_DEPTH then C.Left(st.mem, 3) else C.Next(Reset(hasArena, depth, st))
  {
    hide C.Eval, C.Run;
    var guard, reset := C.DepthGuard(MAX_CALL_DEPTH), if hasArena then [C.ResetAtTop] else [];
    RunCons(guard, reset, depth, st);
    RunOne(guard, depth, st);
    RunOne(C.ResetAtTop, depth, st);
    RunNone(depth, st);
  }

  // ---------- Lockstep ----------

  /** A function's activation agrees with the reference executor's. At the top
      level a flag left over from an earlier request does no harm. */
  lemma {:induction false} SimFunction(m: Module, n: string, args: seq<Value>, cells: seq<int>, depth: nat, cdepth: nat, limit: nat, mem: C.Memory, fuel: nat)
    requires ModuleOk(m) && n in m && DepthsMatch(depth, cdepth, limit)
    requires Valid(mem) && (mem.failed ==> cdepth == 0 && NeedsArena(m)) && ArgsRep(args, m[n].params, cells, mem)
    ensures Agrees(RunFunction(m, m[n], args, depth, limit, fuel), m[n].result, mem,
                   C.Activate(ModuleCode(m), CodeOf(m, n), cells, cdepth, mem, fuel))
    decreases fuel, 1
  {
    hide C.Exec, C.Loop, C.Run, NeedsArena, RunBlock, FunctionOk, Related, FrameOk, ArgsRep, C.DeclTypes, C.BindParams, Declarations, CasesFrom, Prologue;
    var f, code, hasArena := m[n], CodeOf(m, n), NeedsArena(m);
    var dom :| FunctionOk(m, f, dom);
    FunctionBasics(m, f, dom);
    FrameSound(f);
    ArgsCount(args, f.params, cells, mem);
    var st := C.State(EntryVars(f, hasArena, cells), mem);
    RunPrologue(hasArena, cdepth, st);
    if cdepth <= MAX_CALL_DEPTH {
      var st1 := Reset(hasArena, cdepth, st);
      ArgsKept(args, f.params, cells, mem, st1.mem);
      EntryRelated(f, hasArena, args, cells, st1.mem);
      EntryHave(m, f, dom, args);
      SimBlock(m, n, dom, 0, BindAll(map[], f.params, args), depth, cdepth, limit, st1, fuel);
      AgreesFromReset(RunFunction(m, f, args, depth, limit, fuel), f.result, mem, st1.mem, C.Loop(ModuleCode(m), code, 0, cdepth, st1, fuel));
    }
  }

  lemma FunctionBasics(m: Module, f: Function, dom: map<Id, set<Id>>)
    requires FunctionOk(m, f, dom)
    ensures Distinct(IdsOf(AllVals(f))) && f.blocks != []
  {
  }

  lemma ArgsCount(args: seq<Value>, params: seq<Val>, cells: seq<int>, mem: C.Memory)
    requires ArgsRep(args, params, cells, mem)
    ensures |args| == |params| == |cells|
  {
  }

  lemma ArgsKept(args: seq<Value>, params: seq<Val>, cells: seq<int>, a: C.Memory, b: C.Memory)
    requires ArgsRep(args, params, cells, a) && Extends(a, b)
    ensures ArgsRep(args, params, cells, b)
  {
    forall i | 0 <= i < |args|
      ensures Rep(args[i], params[i].ty, cells[i], b)
    {
      RepKept(args[i], params[i].ty, cells[i], a, b);
    }
  }

  lemma AgreesFromReset(r: Result, ty: Ty, before: C.Memory, reset: C.Memory, flow: C.Flow)
    requires Agrees(r, ty, reset, flow) && Extends(before, reset) && before.bump == reset.bump
    ensures Agrees(r, ty, before, flow)
  {
    hide Delivers;
    if r.exact && !Overruns(before, r.used) && r.outcome.Returned? {
      ExtendsTransitive(before, reset, flow.mem);
    }
  }

  lemma CallOperands(m: Module, fr: Frame, inst: Inst, env: Env, st: C.State)
    requires Ready(m, fr, inst, env, st) && inst.Call?
    ensures FrameOk(fr) && Related(fr, env, st) && Valid(st.mem) && !st.mem.failed
    ensures inst.callee in m && AllIn(inst.args, env) && Typed(fr.types, inst.dest.id, inst.dest.ty)
    ensures m[inst.callee].result == inst.dest.ty
    ensures ArgsRep(Lookup(inst.args, env), m[inst.callee].params, ArgCells(fr, inst.args, st), st.mem)
  {
    hide FrameOk;
    forall i | 0 <= i < |inst.args|
      ensures inst.args[i] in env
    {
      assert Uses(inst)[i] == inst.args[i];
    }
    ArgsRepresented(fr, env, st, inst.args, m[inst.callee].params);
  }

  /** One call. */
  lemma {:induction false} SimCall(m: Module, n: string, inst: Inst, env: Env, depth: nat, cdepth: nat, limit: nat, st: C.State, fuel: nat)
    requires ModuleOk(m) && n in m && DepthsMatch(depth, cdepth, limit) && cdepth <= MAX_CALL_DEPTH
    requires Ready(m, FrameOf(m[n]), inst, env, st) && inst.Call?
    ensures Follows(FrameOf(m[n]), RunInst(m, inst, env, depth, limit, fuel), st.mem,
                    C.Exec(ModuleCode(m), LoweredCode(NamesOf(m[n]), inst), cdepth, st, fuel))
    decreases fuel, 2
  {
    hide C.Exec, C.Activate, FrameOk, Related, RunFunction, LoweredCode, FunctionCode, NeedsArena, Follows, Agrees, Ready, ArgsRep, ModuleOk;
    var fr, p := FrameOf(m[n]), ModuleCode(m);
    CallOperands(m, fr, inst, env, st);
    var cells, vals := ArgCells(fr, inst.args, st), Lookup(inst.args, env);
    SimFunction(m, inst.callee, vals, cells, depth + 1, cdepth + 1, limit, st.mem, fuel);
    ActivateEnds(p, p[inst.callee], cells, cdepth + 1, st.mem, fuel);
    ExecCall(p, fr, inst, env, st, cdepth, fuel);
    AfterCall(fr, inst.dest, RunFunction(m, m[inst.callee], vals, depth + 1, limit, fuel), env, st,
              C.Activate(p, p[inst.callee], cells, cdepth + 1, st.mem, fuel), cdepth, p, fuel);
  }

  /** One instruction. */
  lemma {:induction false} SimOne(m: Module, n: string, inst: Inst, env: Env, depth: nat, cdepth: nat, limit: nat, st: C.State, fuel: nat)
    requires ModuleOk(m) && n in m && DepthsMatch(depth, cdepth, limit) && cdepth <= MAX_CALL_DEPTH
    requires Ready(m, FrameOf(m[n]), inst, env, st) && inst.dest.id !in Uses(inst)
    ensures Follows(FrameOf(m[n]), RunInst(m, inst, env, depth, limit, fuel), st.mem,
                    C.Exec(ModuleCode(m), LoweredCode(NamesOf(m[n]), inst), cdepth, st, fuel))
    decreases fuel, 3, 0
  {
    hide C.Exec, ModuleCode, NamesOf, TypesOf, LoweredCode, Ready, Follows, RunInst, ModuleOk;
    if inst.Call? {
      SimCall(m, n, inst, env, depth, cdepth, limit, st, fuel);
    } else {
      SimStep(m, FrameOf(m[n]), inst, env, depth, cdepth, limit, st, fuel);
    }
  }

  /** A list of instructions. */
  lemma {:induction false} SimInsts(m: Module, n: string, have: set<Id>, insts: seq<Inst>, env: Env, depth: nat, cdepth: nat, limit: nat, st: C.State, fuel: nat)
    requires ModuleOk(m) && n in m && DepthsMatch(depth, cdepth, limit) && cdepth <= MAX_CALL_DEPTH
    requires FrameOk(FrameOf(m[n])) && Related(FrameOf(m[n]), env, st)
    requires InstsOk(m, TypesOf(m[n]), have, insts) && have <= env.Keys
    ensures Follows(FrameOf(m[n]), RunInsts(m, insts, env, depth, limit, fuel), st.mem,
                    C.Exec(ModuleCode(m), InstsCode(NamesOf(m[n]), Flatten(LowerAll(insts))), cdepth, st, fuel))
    decreases fuel, 3, |insts|
  {
    hide C.Exec, FrameOk, Related, RunInst, LoweredCode, ModuleCode, TypesOf, NamesOf, WellTyped, Uses, LowerAll, Flatten, InstCode;
    var fr, p, names := FrameOf(m[n]), ModuleCode(m), NamesOf(m[n]);
    if insts == [] {
      NoCode(m, names, cdepth, st, fuel);
      ExtendsSelf(fr, env, st);
    } else {
      var inst, rest := insts[0], InstsCode(names, Flatten(LowerAll(insts[1..])));
      ReadyHere(m, fr, have, insts, env, st);
      SimOne(m, n, inst, env, depth, cdepth, limit, st, fuel);
      CodeSplit(names, insts);
      var first, f := RunInst(m, inst, env, depth, limit, fuel), C.Exec(p, LoweredCode(names, inst), cdepth, st, fuel);
      if first.exact && Overruns(st.mem, first.used) {
        FailedInst(m, names, inst, insts[1..], cdepth, st, fuel);
      } else {
        ExecAppend(p, LoweredCode(names, inst), rest, cdepth, st, fuel);
        if first.exact && first.Done? {
          KeysGrow(m, fr.types, have, insts, env, depth, limit, fuel);
          SimInsts(m, n, have + {inst.dest.id}, insts[1..], first.env, depth, cdepth, limit, f.st, fuel);
          FollowsOn(fr, first.used, RunInsts(m, insts[1..], first.env, depth, limit, fuel), st.mem, f.st.mem, C.Exec(p, rest, cdepth, f.st, fuel));
        }
      }
    }
  }

  lemma FailedInst(m: Module, names: Names, inst: Inst, later: seq<Inst>, cdepth: nat, st: C.State, fuel: nat)
    requires cdepth <= MAX_CALL_DEPTH && Exhausted(C.FlowMemory(C.Exec(ModuleCode(m), LoweredCode(names, inst), cdepth, st, fuel)))
    ensures Exhausted(C.FlowMemory(C.Exec(ModuleCode(m), LoweredCode(names, inst) + InstsCode(names, Flatten(LowerAll(later))), cdepth, st, fuel)))
  {
    hide C.Exec, ModuleCode, LoweredCode, InstsCode, LowerAll, Flatten;
    ModuleHardened(m);
    FlattenPlain(LowerAll(later));
    InstsNoReset(names, Flatten(LowerAll(later)));
    FailureStays(ModuleCode(m), LoweredCode(names, inst), InstsCode(names, Flatten(LowerAll(later))), cdepth, st, fuel);
  }

  lemma NoCode(m: Module, names: Names, depth: nat, st: C.State, fuel: nat)
    ensures C.Exec(ModuleCode(m), InstsCode(names, Flatten(LowerAll([]))), depth, st, fuel) == C.Next(st)
  {
    assert LowerAll([]) == [];
  }

  lemma ExtendsSelf(fr: Frame, env: Env, st: C.State)
    requires Related(fr, env, st)
    ensures Extends(st.mem, st.mem) && !st.mem.failed && Spends(st.mem, 0, st.mem) && !Overruns(st.mem, 0)
  {
  }

  lemma ReadyHere(m: Module, fr: Frame, have: set<Id>, insts: seq<Inst>, env: Env, st: C.State)
    requires FrameOk(fr) && Related(fr, env, st) && insts != [] && InstsOk(m, fr.types, have, insts) && have <= env.Keys
    ensures Ready(m, fr, insts[0], env, st) && Dest(insts[0]).Some? && insts[0].dest.id !in Uses(insts[0])
    ensures InstsOk(m, fr.types, have + {insts[0].dest.id}, insts[1..])
  {
    hide FrameOk, Related, Uses;
    SourceTyped(m, fr.types, insts[0]);
  }

  lemma KeysGrow(m: Module, types: Types, have: set<Id>, insts: seq<Inst>, env: Env, depth: nat, limit: nat, fuel: nat)
    requires insts != [] && InstsOk(m, types, have, insts) && have <= env.Keys
    ensures var first := RunInst(m, insts[0], env, depth, limit, fuel);
            first.Done? ==> have + {insts[0].dest.id} <= first.env.Keys
  {
    hide WellTyped, Uses, Evaluate, InEnvelope, RunFunction;
    SourceTyped(m, types, insts[0]);
  }

  lemma FollowsOn(fr: Frame, used: nat, pr: Progress, before: C.Memory, middle: C.Memory, flow: C.Flow)
    requires Follows(fr, pr, middle, flow) && Extends(before, middle) && Took(before, middle, used)
    ensures Follows(fr, Continuing(true, used, pr), before, flow)
  {
    hide Related, Delivers;
    if pr.exact && !Overruns(middle, pr.used) {
      if pr.Done? {
        ExtendsTransitive(before, middle, flow.st.mem);
      }
    }
  }

  // ---------- Blocks ----------

  function BlockInsts(m: Module, n: string, k: nat): seq<C.Stmt>
    requires n in m && k < |m[n].blocks|
  {
    InstsCode(NamesOf(m[n]), Flatten(LowerAll(m[n].blocks[k].insts)))
  }

  function BlockTerm(m: Module, n: string, k: nat): seq<C.Stmt>
    requires n in m && k < |m[n].blocks|
  {
    TermCode(NamesOf(m[n]), m[n], m[n].blocks[k].term, NeedsArena(m))
  }

  /** What the `switch` runs when it enters at block `k`. */
  lemma CaseShape(m: Module, n: string, k: nat)
    requires n in m && k < |m[n].blocks|
    ensures var tail := C.SwitchTail(CodeOf(m, n).cases, k + 1);
            && C.SwitchTail(CodeOf(m, n).cases, k) == BlockInsts(m, n, k) + (BlockTerm(m, n, k) + tail)
            && C.CallFree(BlockTerm(m, n, k))
            && NoReset(BlockTerm(m, n, k) + tail)
  {
    hide NeedsArena, InstsCode, TermCode, FunctionCode, NamesOf;
    var f, cases := m[n], CodeOf(m, n).cases;
    FunctionShape(f, NeedsArena(m));
    var tail := C.SwitchTail(cases, k + 1);
    assert cases[k] == BlockInsts(m, n, k) + BlockTerm(m, n, k);
    TermPlain(NamesOf(f), f, f.blocks[k].term, NeedsArena(m));
    TailNoReset(cases, k + 1);
    NoResetAppend(BlockTerm(m, n, k), tail);
    assert (BlockInsts(m, n, k) + BlockTerm(m, n, k)) + tail == BlockInsts(m, n, k) + (BlockTerm(m, n, k) + tail);
  }

  /** The terminator's own code decides: control never falls into the next case. */
  lemma ExecTerm(m: Module, n: string, k: nat, o: Onward, fr: Frame, depth: nat, st: C.State, fuel: nat)
    requires n in m && k < |m[n].blocks|
    requires Lands(fr, m[n], o, st, C.Run(BlockTerm(m, n, k), depth, st))
    ensures C.Exec(ModuleCode(m), BlockTerm(m, n, k) + C.SwitchTail(CodeOf(m, n).cases, k + 1), depth, st, fuel)
         == C.Run(BlockTerm(m, n, k), depth, st)
  {
    hide C.Exec, C.Run, C.SwitchTail, ModuleCode, CodeOf, BlockTerm, Related, Delivers;
    CaseShape(m, n, k);
    ExecAppend(ModuleCode(m), BlockTerm(m, n, k), C.SwitchTail(CodeOf(m, n).cases, k + 1), depth, st, fuel);
    CallFreeExec(ModuleCode(m), BlockTerm(m, n, k), depth, st, fuel);
  }

  /** The terminator of block `k`, from the state its instructions leave. */
  lemma SimBlockTerm(m: Module, n: string, dom: map<Id, set<Id>>, k: nat, env: Env, st: C.State, depth: nat)
    requires n in m && FunctionOk(m, m[n], dom) && k < |m[n].blocks|
    requires FrameOk(FrameOf(m[n])) && Related(FrameOf(m[n]), env, st)
    requires HaveAfter(Have(m[n], dom, m[n].blocks[k]), m[n].blocks[k].insts) <= env.Keys
    ensures Lands(FrameOf(m[n]), m[n], Terminate(m[n], m[n].blocks[k].term, env), st, C.Run(BlockTerm(m, n, k), depth, st))
  {
    hide C.Run, Related, FrameOk, HaveAfter, Have, TermCode, NamesOf, TypesOf, TermOk, InstsOk, Terminate, NeedsArena;
    var f := m[n];
    assert BlockOk(m, f, dom, f.blocks[k]);
    ParamsTyped(f);
    SimTerm(FrameOf(f), f, dom, HaveAfter(Have(f, dom, f.blocks[k]), f.blocks[k].insts), f.blocks[k].id, f.blocks[k].term, NeedsArena(m), env, st, depth);
  }

  /** The instructions of block `k`. */
  lemma {:induction false} SimBlockInsts(m: Module, n: string, dom: map<Id, set<Id>>, k: nat, env: Env, depth: nat, cdepth: nat, limit: nat, st: C.State, fuel: nat)
    requires ModuleOk(m) && n in m && DepthsMatch(depth, cdepth, limit) && cdepth <= MAX_CALL_DEPTH
    requires FunctionOk(m, m[n], dom) && k < |m[n].blocks|
    requires FrameOk(FrameOf(m[n])) && Related(FrameOf(m[n]), env, st)
    requires Have(m[n], dom, m[n].blocks[k]) <= env.Keys
    ensures var pr := RunInsts(m, m[n].blocks[k].insts, env, depth, limit, fuel);
            && Follows(FrameOf(m[n]), pr, st.mem, C.Exec(ModuleCode(m), BlockInsts(m, n, k), cdepth, st, fuel))
            && (pr.Done? ==> HaveAfter(Have(m[n], dom, m[n].blocks[k]), m[n].blocks[k].insts) <= pr.env.Keys)
    decreases fuel, 4
  {
    hide C.Exec, ModuleCode, FrameOk, Related, RunInsts, HaveAfter, Have, InstsOk, TermOk, TypesOf, NamesOf, InstsCode, LowerAll, Flatten, Follows;
    var f := m[n];
    assert BlockOk(m, f, dom, f.blocks[k]);
    RunHave(m, TypesOf(f), Have(f, dom, f.blocks[k]), f.blocks[k].insts, env, depth, limit, fuel);
    SimInsts(m, n, Have(f, dom, f.blocks[k]), f.blocks[k].insts, env, depth, cdepth, limit, st, fuel);
  }

  /** The dispatch loop, from any block on. */
  lemma {:induction false} SimBlock(m: Module, n: string, dom: map<Id, set<Id>>, k: nat, env: Env, depth: nat, cdepth: nat, limit: nat, st: C.State, fuel: nat)
    requires ModuleOk(m) && n in m && DepthsMatch(depth, cdepth, limit) && cdepth <= MAX_CALL_DEPTH
    requires FunctionOk(m, m[n], dom) && k < |m[n].blocks|
    requires FrameOk(FrameOf(m[n])) && Related(FrameOf(m[n]), env, st)
    requires Have(m[n], dom, m[n].blocks[k]) <= env.Keys
    ensures Agrees(RunBlock(m, m[n], k, env, depth, limit, fuel), m[n].result, st.mem,
                   C.Loop(ModuleCode(m), CodeOf(m, n), k, cdepth, st, fuel))
    decreases fuel, 0
  {
    hide C.Exec, C.Run, C.SwitchTail, ModuleCode, CodeOf, BlockTerm, BlockInsts, Related, FrameOk, RunInsts, Terminate, FunctionOk, Have, HaveAfter, Delivers, Extends;
    var f, fr, p, code := m[n], FrameOf(m[n]), ModuleCode(m), CodeOf(m, n);
    ExtendsSelf(fr, env, st);
    if fuel > 0 {
      SimBlockInsts(m, n, dom, k, env, depth, cdepth, limit, st, fuel - 1);
      var pr, f1 := RunInsts(m, f.blocks[k].insts, env, depth, limit, fuel - 1), C.Exec(p, BlockInsts(m, n, k), cdepth, st, fuel - 1);
      var rest := BlockTerm(m, n, k) + C.SwitchTail(code.cases, k + 1);
      CaseShape(m, n, k);
      if pr.exact && Overruns(st.mem, pr.used) {
        FailedBlock(m, n, k, cdepth, st, fuel);
      } else {
        ExecAppend(p, BlockInsts(m, n, k), rest, cdepth, st, fuel - 1);
        if pr.exact && pr.Done? {
          SimBlockTerm(m, n, dom, k, pr.env, f1.st, cdepth);
          var o, flow := Terminate(f, f.blocks[k].term, pr.env), C.Run(BlockTerm(m, n, k), cdepth, f1.st);
          ExecTerm(m, n, k, o, fr, cdepth, f1.st, fuel - 1);
          if o.GoesTo? {
            TermHave(m, f, dom, k, pr.env);
            SimBlock(m, n, dom, o.index, o.env, depth, cdepth, limit, flow.st, fuel - 1);
            AgreesOn(RunBlock(m, f, o.index, o.env, depth, limit, fuel - 1), pr.used, f.result, st.mem, f1.st.mem, C.Loop(p, code, o.index, cdepth, flow.st, fuel - 1));
          } else {
            EndsHere(o.outcome, fr, f, pr.env, f1.st, flow);
            AgreesOn(Result(o.outcome, true, 0), pr.used, f.result, st.mem, f1.st.mem, flow);
          }
        }
      }
    }
  }

  /** A terminator that ends the activation allocates nothing. */
  lemma EndsHere(o: Outcome, fr: Frame, f: Function, env: Env, st: C.State, flow: C.Flow)
    requires Related(fr, env, st) && Lands(fr, f, Ends(o), st, flow)
    ensures Agrees(Result(o, true, 0), f.result, st.mem, flow)
  {
  }

  lemma FailedBlock(m: Module, n: string, k: nat, cdepth: nat, st: C.State, fuel: nat)
    requires n in m && k < |m[n].blocks| && cdepth <= MAX_CALL_DEPTH && fuel > 0
    requires Exhausted(C.FlowMemory(C.Exec(ModuleCode(m), BlockInsts(m, n, k), cdepth, st, fuel - 1)))
    ensures Exhausted(C.FlowMemory(C.Loop(ModuleCode(m), CodeOf(m, n), k, cdepth, st, fuel)))
  {
    hide C.Exec, C.Loop, C.SwitchTail, ModuleCode, BlockTerm, BlockInsts, FunctionCode, NeedsArena;
    CaseShape(m, n, k);
    ModuleHardened(m);
    FunctionShape(m[n], NeedsArena(m));
    var rest := BlockTerm(m, n, k) + C.SwitchTail(CodeOf(m, n).cases, k + 1);
    FailureStays(ModuleCode(m), BlockInsts(m, n, k), rest, cdepth, st, fuel - 1);
    LoopFails(ModuleCode(m), CodeOf(m, n), k, cdepth, st, fuel);
  }

  lemma AgreesOn(r: Result, used: nat, ty: Ty, before: C.Memory, middle: C.Memory, flow: C.Flow)
    requires Agrees(r, ty, middle, flow) && Extends(before, middle) && Took(before, middle, used)
    ensures Agrees(Following(true, used, r), ty, before, flow)
  {
    hide Delivers;
    if r.exact && !Overruns(middle, r.used) && r.outcome.Returned? {
      ExtendsTransitive(before, middle, flow.mem);
    }
  }
}
