/** How activations end, in the numbers a caller reads: the three statuses, the
    value that goes with them, and status 3 for a return from an exhausted arena. */
module Endings {
  import opened Options
  import opened Words
  import opened Mncs
  import opened Emit
  import opened Orderly
  import opened Represent
  import opened Interpreter
  import opened Validation
  import opened Simulation
  import opened Runs
  import opened Refinement
  import IntegerLowering
  import C = CLang
  import opened Execution

  // ---------- The code of a return ----------

  /** How a return ends an activation that arrives with memory `m`. */
  ghost predicate ReturnsFrom(m: C.Memory, flow: C.Flow) {
    && (m.failed && m.exhausted ==> flow == C.Exit(m.(status := 3, value := 0)))
    && (m.failed && !m.exhausted ==> flow == C.Exit(m.(status := 1, value := 0)))
    && (!m.failed ==> flow == C.Wrong(m) || (flow.Exit? && flow == C.Exit(m.(status := 0, value := flow.mem.value))))
  }

  predicate IsReturn(m: Module, n: string, k: nat)
    requires n in m && k < |m[n].blocks|
  {
    m[n].blocks[k].term.Return?
  }

  /** From every state; without a failure the variable's value is returned, modulo 2^64. */
  lemma ReturnCode(m: Module, n: string, k: nat, depth: nat, st: C.State)
    requires n in m && k < |m[n].blocks| && IsReturn(m, n, k) && NeedsArena(m)
    ensures var flow, x := C.Run(BlockTerm(m, n, k), depth, st), NameOf(NamesOf(m[n]), m[n].blocks[k].term.value);
            && ReturnsFrom(st.mem, flow)
            && (!st.mem.failed && x in st.vars.types && x in st.vars.values ==>
                  flow.Exit? && -TWO_63 <= flow.mem.value < TWO_63 && (flow.mem.value - st.vars.values[x]) % TWO_64 == 0)
  {
    hide C.Run, NeedsArena, NamesOf;
    var x := NameOf(NamesOf(m[n]), m[n].blocks[k].term.value);
    var back := C.ReturnValue(C.Var(x));
    assert BlockTerm(m, n, k) == [C.LeaveIfFailed] + [back];
    RunCons(C.LeaveIfFailed, [back], depth, st);
    IntegerLowering.RunOne(C.LeaveIfFailed, depth, st);
    IntegerLowering.RunOne(back, depth, st);
    if x in st.vars.types && x in st.vars.values {
      SignedCongruent(st.vars.values[x]);
    }
  }

  lemma SignedCongruent(n: int)
    ensures -TWO_63 <= C.ToType(C.I64, n) < TWO_63 && (C.ToType(C.I64, n) - n) % TWO_64 == 0
  {
    WrapResidue(n, TWO_64, true);
    ModSub(Wrap(n, TWO_64, true), n, TWO_64);
  }

  // ---------- Which statuses there are ----------

  /** The out-parameters hold one of the three statuses, and no value beside a failure. */
  predicate Settled(m: C.Memory) {
    && (m.status == 0 || m.status == 1 || m.status == 3)
    && (m.status != 0 ==> m.value == 0)
  }

  lemma StepSettled(s: C.Stmt, n: nat, heap: bool, depth: nat, st: C.State)
    requires !s.If? && !s.Call? && (s.LeaveIfFailed? || s.ReturnValue? || Sound(s, n, heap)) && Settled(st.mem)
    ensures Settled(C.FlowMemory(C.Step(s, depth, st)))
  {
    hide C.Eval, C.ToType, C.WriteBytes;
  }

  lemma {:induction false} ExecSettled(p: C.Program, heap: bool, ss: seq<C.Stmt>, n: nat, depth: nat, st: C.State, fuel: nat)
    requires Uniform(p, heap) && InOrder(ss, n, heap) && Settled(st.mem)
    ensures Settled(C.FlowMemory(C.Exec(p, ss, depth, st, fuel)))
    decreases fuel, 3, ss
  {
    if ss != [] {
      hide C.Eval, C.EvalArgs, C.Activate, C.Step, Settled, Uniform;
      ExecCons(p, ss[0], ss[1..], depth, st, fuel);
      assert ss == [ss[0]] + ss[1..] && [ss[0]][1..] == [];
      var f := C.Exec(p, [ss[0]], depth, st, fuel);
      if ss[0].If? {
        var r := C.Eval(ss[0].test, st.vars);
        if r.Ok? {
          if r.v.n != 0 { ExecSettled(p, heap, ss[0].thn, n, depth, st, fuel); } else { ExecSettled(p, heap, ss[0].els, n, depth, st, fuel); }
        }
      } else if ss[0].Call? {
        CallSettled(p, heap, ss[0], depth, st, fuel);
      } else {
        StepSettled(ss[0], n, heap, depth, st);
      }
      if f.Next? {
        if ss[0].LeaveIfFailed? {
          ExecCons(p, ss[1], ss[2..], depth, f.st, fuel);
          assert ss[1..] == [ss[1]] + ss[2..] && [ss[1]][1..] == [];
          StepSettled(ss[1], n, heap, depth, f.st);
          ReturnEnds(ss[1], depth, f.st);
        } else {
          ExecSettled(p, heap, ss[1..], n, depth, f.st, fuel);
        }
      }
    }
  }

  lemma {:induction false} CallSettled(p: C.Program, heap: bool, s: C.Stmt, depth: nat, st: C.State, fuel: nat)
    requires Uniform(p, heap) && s.Call? && Settled(st.mem)
    ensures Settled(C.FlowMemory(C.Exec(p, [s], depth, st, fuel)))
    decreases fuel, 2
  {
    hide C.Activate, C.EvalArgs, Uniform;
    ExecOneCall(p, s, depth, st, fuel);
    var vals := C.EvalArgs(s.args, st.vars);
    if vals.0 && s.callee in p {
      ActivateSettled(p, heap, s.callee, vals.1, (depth + 1) % TWO_64, st.mem, fuel);
    }
  }

  lemma {:induction false} LoopSettled(p: C.Program, heap: bool, f: C.Function, pc: int, depth: nat, st: C.State, fuel: nat)
    requires Uniform(p, heap) && CasesInOrder(f, heap) && Settled(st.mem)
    ensures Settled(C.FlowMemory(C.Loop(p, f, pc, depth, st, fuel)))
    decreases fuel, 0
  {
    if fuel > 0 {
      hide C.Exec, C.SwitchTail, InOrder, Uniform, Settled;
      TailInOrder(f.cases, pc, heap);
      var body := C.Exec(p, C.SwitchTail(f.cases, pc), depth, st, fuel - 1);
      ExecSettled(p, heap, C.SwitchTail(f.cases, pc), |f.cases|, depth, st, fuel - 1);
      if body.Jump? {
        LoopSettled(p, heap, f, body.pc, depth, body.st, fuel - 1);
      } else if body.Next? {
        LoopSettled(p, heap, f, pc, depth, body.st, fuel - 1);
      }
    }
  }

  lemma {:induction false} ActivateSettled(p: C.Program, heap: bool, callee: string, args: seq<int>, depth: nat, m: C.Memory, fuel: nat)
    requires Uniform(p, heap) && callee in p && Settled(m)
    ensures Settled(C.FlowMemory(C.Activate(p, p[callee], args, depth, m, fuel)))
    decreases fuel, 1
  {
    hide C.Loop, C.Run, InOrder, C.DeclTypes, C.BindParams, Prologue;
    var f := p[callee];
    if |args| == |f.params| {
      var st := C.State(C.Locals(C.DeclTypes(f.params + f.decls), C.BindParams(f.params, args)), m);
      RunPrologue(heap, depth, st);
      if depth <= MAX_CALL_DEPTH {
        LoopSettled(p, heap, f, 0, depth, Reset(heap, depth, st), fuel);
      }
    }
  }

  /** Every run of every module, from any arena and at any depth, ends with status
      0, 1 or 3, and with value 0 unless the status is 0. */
  lemma StatusesAre(m: Module, n: string, cells: seq<int>, depth: nat, mem: C.Memory, fuel: nat)
    requires n in m && Settled(mem)
    ensures Settled(C.FlowMemory(C.Activate(ModuleCode(m), CodeOf(m, n), cells, depth, mem, fuel)))
  {
    hide C.Activate, NeedsArena, ModuleCode, FunctionCode, Uniform;
    ModuleUniform(m);
    SameCode(m, n);
    ActivateSettled(ModuleCode(m), NeedsArena(m), n, cells, depth, mem, fuel);
  }

  /** Depth 1024 is let in and depth 1025 is not. */
  lemma DepthCap(m: Module, n: string, cells: seq<int>, depth: nat, mem: C.Memory, fuel: nat)
    requires n in m && |cells| == |m[n].params|
    ensures var flow := C.Activate(ModuleCode(m), CodeOf(m, n), cells, depth, mem, fuel);
            && (depth > 1024 ==> flow == C.Exit(mem.(status := 3, value := 0)))
            && (depth <= 1024 && fuel == 0 ==> flow.Spent?)
  {
    hide C.Run, NeedsArena, ModuleCode, Prologue, CasesFrom, Declarations, C.DeclTypes, C.BindParams;
    var f := CodeOf(m, n);
    SameCode(m, n);
    RunPrologue(NeedsArena(m), depth, C.State(C.Locals(C.DeclTypes(f.params + f.decls), C.BindParams(f.params, cells)), mem));
  }

  // ---------- Reaching a return ----------

  /** The state in which the run from block `k` reaches the terminator of a block that
      returns; `None` if it never does. */
  function ReturnState(m: Module, n: string, k: int, depth: nat, st: C.State, fuel: nat): Option<C.State>
    requires n in m
    decreases fuel
  {
    if fuel == 0 || !(0 <= k < |m[n].blocks|) then None
    else
      var body := C.Exec(ModuleCode(m), BlockInsts(m, n, k), depth, st, fuel - 1);
      if !body.Next? then None
      else if IsReturn(m, n, k) then Some(body.st)
      else
        var flow := C.Run(BlockTerm(m, n, k), depth, body.st);
        if flow.Jump? then ReturnState(m, n, flow.pc, depth, flow.st, fuel - 1) else None
  }

  /** The last trip through the switch runs the return's code in that state. */
  lemma {:induction false} ReturnReached(m: Module, n: string, k: nat, depth: nat, st: C.State, fuel: nat)
    requires n in m && NeedsArena(m) && k < |m[n].blocks| && ReturnState(m, n, k, depth, st, fuel).Some?
    ensures ReturnsFrom(ReturnState(m, n, k, depth, st, fuel).value.mem, C.Loop(ModuleCode(m), CodeOf(m, n), k, depth, st, fuel))
    decreases fuel
  {
    hide C.Exec, C.Run, C.SwitchTail, ModuleCode, CodeOf, BlockTerm, BlockInsts, ReturnsFrom, NeedsArena;
    var p, tail := ModuleCode(m), C.SwitchTail(CodeOf(m, n).cases, k + 1);
    CaseShape(m, n, k);
    ExecAppend(p, BlockInsts(m, n, k), BlockTerm(m, n, k) + tail, depth, st, fuel - 1);
    var body := C.Exec(p, BlockInsts(m, n, k), depth, st, fuel - 1);
    ExecAppend(p, BlockTerm(m, n, k), tail, depth, body.st, fuel - 1);
    CallFreeExec(p, BlockTerm(m, n, k), depth, body.st, fuel - 1);
    TermEnds(m, n, k, depth, body.st);
    if IsReturn(m, n, k) {
      ReturnCode(m, n, k, depth, body.st);
      ReturnExits(body.st.mem, C.Run(BlockTerm(m, n, k), depth, body.st));
    } else {
      var flow := C.Run(BlockTerm(m, n, k), depth, body.st);
      ReturnReached(m, n, flow.pc, depth, flow.st, fuel - 1);
    }
  }

  lemma ReturnExits(m: C.Memory, flow: C.Flow)
    requires ReturnsFrom(m, flow)
    ensures flow.Exit? || flow.Wrong?
  {
  }

  lemma TermEnds(m: Module, n: string, k: nat, depth: nat, st: C.State)
    requires n in m && k < |m[n].blocks|
    ensures !C.Run(BlockTerm(m, n, k), depth, st).Next?
  {
    hide C.Run, TermCode, NeedsArena, NamesOf;
    TermNeverNext(NamesOf(m[n]), m[n], m[n].blocks[k].term, NeedsArena(m), depth, st);
  }

  /** A failure in a block's code ends the activation, if it ends, with status 1 or 3 and
      value 0; an exhausted arena, if a return is reached, with status 3. */
  lemma PoisonReports(m: Module, n: string, k: nat, depth: nat, st: C.State, fuel: nat)
    requires n in m && k < |m[n].blocks| && NeedsArena(m) && depth <= MAX_CALL_DEPTH && fuel > 0 && Settled(st.mem)
    requires C.FlowMemory(C.Exec(ModuleCode(m), BlockInsts(m, n, k), depth, st, fuel - 1)).failed
    ensures var at := C.FlowMemory(C.Exec(ModuleCode(m), BlockInsts(m, n, k), depth, st, fuel - 1));
            var end := C.Loop(ModuleCode(m), CodeOf(m, n), k, depth, st, fuel);
            && Poisoned(at, C.FlowMemory(end))
            && (end.Exit? ==> end.mem.status in {1, 3} && end.mem.value == 0)
            && (at.exhausted && ReturnState(m, n, k, depth, st, fuel).Some? ==> end.Exit? && end.mem.status == 3 && end.mem.value == 0)
  {
    hide C.Loop, C.Exec, NeedsArena, ModuleCode, FunctionCode, InOrder, BlockInsts, ReturnState;
    PoisonStops(m, n, k, depth, st, fuel);
    ModuleUniform(m);
    SameCode(m, n);
    LoopSettled(ModuleCode(m), true, CodeOf(m, n), k, depth, st, fuel);
    if ReturnState(m, n, k, depth, st, fuel).Some? {
      ReturnReached(m, n, k, depth, st, fuel);
    }
  }

  /** The same for an activation, from its entry. */
  function Arrival(m: Module, n: string, cells: seq<int>, depth: nat, mem: C.Memory, fuel: nat): Option<C.State>
    requires n in m
  {
    var f := CodeOf(m, n);
    if |cells| != |f.params| || depth > MAX_CALL_DEPTH then None
    else
      var st := C.State(C.Locals(C.DeclTypes(f.params + f.decls), C.BindParams(f.params, cells)), mem);
      ReturnState(m, n, 0, depth, Reset(NeedsArena(m), depth, st), fuel)
  }

  /** An activation of a module with an arena that reaches a return, at any depth and
      from any memory, ends with status 3 if the arena is exhausted by then, with
      status 1 if only an access failed, and with status 0 otherwise. */
  lemma ArrivalEnds(m: Module, n: string, cells: seq<int>, depth: nat, mem: C.Memory, fuel: nat)
    requires n in m && NeedsArena(m) && Arrival(m, n, cells, depth, mem, fuel).Some?
    ensures ReturnsFrom(Arrival(m, n, cells, depth, mem, fuel).value.mem, C.Activate(ModuleCode(m), CodeOf(m, n), cells, depth, mem, fuel))
  {
    hide C.Loop, C.Run, NeedsArena, ModuleCode, FunctionCode, ReturnState, ReturnsFrom, C.DeclTypes, C.BindParams, Prologue;
    var f := CodeOf(m, n);
    SameCode(m, n);
    var st := C.State(C.Locals(C.DeclTypes(f.params + f.decls), C.BindParams(f.params, cells)), mem);
    RunPrologue(NeedsArena(m), depth, st);
    HasBlocks(m, n, depth, Reset(NeedsArena(m), depth, st), fuel);
    ReturnReached(m, n, 0, depth, Reset(NeedsArena(m), depth, st), fuel);
  }

  lemma HasBlocks(m: Module, n: string, depth: nat, st: C.State, fuel: nat)
    requires n in m && ReturnState(m, n, 0, depth, st, fuel).Some?
    ensures |m[n].blocks| > 0
  {
    hide C.Exec, C.Run, ModuleCode, BlockInsts, BlockTerm;
  }

  /** A run inside the envelope that needs more cells than are left is a failure:
      if it ends, with status 1 or 3 and value 0, and if it reaches its return, with
      status 3. */
  lemma OverrunReports(m: Module, n: string, args: seq<Value>, cells: seq<int>, budget: nat, mem: C.Memory, fuel: nat)
    requires Request(m, n, args, cells, budget, mem) && Settled(mem)
    requires var r := RunFunction(m, m[n], args, 0, budget, fuel); r.exact && Overruns(mem, r.used)
    ensures var flow := Compiled(m, n, cells, budget, mem, fuel);
            && (flow.Exit? ==> flow.mem.status in {1, 3} && flow.mem.value == 0)
            && (Arrival(m, n, cells, MAX_CALL_DEPTH - budget, mem, fuel).Some? ==> flow.Exit? && flow.mem.status == 3 && flow.mem.value == 0)
  {
    hide C.Activate, RunFunction, NeedsArena, ModuleCode, FunctionCode, ModuleOk, Overruns, Arrival, Corresponds;
    GeneratedRefines(m, n, args, cells, budget, mem, fuel);
    StatusesAre(m, n, cells, MAX_CALL_DEPTH - budget, mem, fuel);
    if !NeedsArena(m) {
      NeverExhausted(m, n, cells, budget, mem, fuel);
    } else {
      NoPoisonEscapes(m, n, cells, MAX_CALL_DEPTH - budget, mem, fuel);
      if Arrival(m, n, cells, MAX_CALL_DEPTH - budget, mem, fuel).Some? {
        ArrivalEnds(m, n, cells, MAX_CALL_DEPTH - budget, mem, fuel);
      }
    }
  }
}
