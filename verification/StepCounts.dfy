/** Step counts only ever cut a run short: a run that ends is the same run under
    every larger count, on both sides. */
module StepCounts {
  import opened Words
  import opened Mncs
  import opened Interpreter
  import opened Simulation
  import opened Entry
  import opened Refinement
  import opened Validation
  import Envelope
  import Represent
  import C = CLang
  import opened Execution

  // ---------- Generated code ----------

  predicate SameOrSpent(short: C.Flow, long: C.Flow) { short.Spent? || short == long }

  lemma {:induction false} ExecFuel(p: C.Program, ss: seq<C.Stmt>, depth: nat, st: C.State, fuel: nat, more: nat)
    requires fuel <= more
    ensures SameOrSpent(C.Exec(p, ss, depth, st, fuel), C.Exec(p, ss, depth, st, more))
    decreases fuel, 3, ss
  {
    if ss != [] {
      hide C.Eval, C.EvalArgs, C.Activate, C.Step;
      ExecCons(p, ss[0], ss[1..], depth, st, fuel);
      ExecCons(p, ss[0], ss[1..], depth, st, more);
      assert ss == [ss[0]] + ss[1..] && [ss[0]][1..] == [];
      var a := C.Exec(p, [ss[0]], depth, st, fuel);
      if ss[0].If? {
        var r := C.Eval(ss[0].test, st.vars);
        if r.Ok? {
          if r.v.n != 0 { ExecFuel(p, ss[0].thn, depth, st, fuel, more); } else { ExecFuel(p, ss[0].els, depth, st, fuel, more); }
        }
      } else if ss[0].Call? {
        ExecOneCall(p, ss[0], depth, st, fuel);
        ExecOneCall(p, ss[0], depth, st, more);
        var vals := C.EvalArgs(ss[0].args, st.vars);
        if vals.0 && ss[0].callee in p {
          ActivateFuel(p, p[ss[0].callee], vals.1, (depth + 1) % TWO_64, st.mem, fuel, more);
        }
      }
      if a.Next? {
        ExecFuel(p, ss[1..], depth, a.st, fuel, more);
      }
    }
  }

  lemma {:induction false} ActivateFuel(p: C.Program, f: C.Function, args: seq<int>, depth: nat, m: C.Memory, fuel: nat, more: nat)
    requires fuel <= more
    ensures SameOrSpent(C.Activate(p, f, args, depth, m, fuel), C.Activate(p, f, args, depth, m, more))
    decreases fuel, 1
  {
    hide C.Loop, C.Run, C.DeclTypes, C.BindParams;
    if |args| == |f.params| {
      var st := C.State(C.Locals(C.DeclTypes(f.params + f.decls), C.BindParams(f.params, args)), m);
      var entered := C.Run(f.prologue, depth, st);
      if entered.Next? {
        LoopFuel(p, f, 0, depth, entered.st, fuel, more);
      }
    }
  }

  lemma {:induction false} LoopFuel(p: C.Program, f: C.Function, pc: int, depth: nat, st: C.State, fuel: nat, more: nat)
    requires fuel <= more
    ensures SameOrSpent(C.Loop(p, f, pc, depth, st, fuel), C.Loop(p, f, pc, depth, st, more))
    decreases fuel, 0
  {
    if fuel > 0 {
      hide C.Exec, C.SwitchTail;
      ExecFuel(p, C.SwitchTail(f.cases, pc), depth, st, fuel - 1, more - 1);
      var body := C.Exec(p, C.SwitchTail(f.cases, pc), depth, st, fuel - 1);
      if body.Jump? {
        LoopFuel(p, f, body.pc, depth, body.st, fuel - 1, more - 1);
      } else if body.Next? {
        LoopFuel(p, f, pc, depth, body.st, fuel - 1, more - 1);
      }
    }
  }

  // ---------- The reference executor ----------

  predicate SameOrRunning(short: Result, long: Result) { short.outcome.Running? || short == long }

  predicate SameProgress(short: Progress, long: Progress) { short == long || (short.Stopped? && short.outcome.Running?) }

  lemma {:induction false} FunctionFuel(m: Module, f: Function, args: seq<Value>, depth: nat, limit: nat, fuel: nat, more: nat)
    requires fuel <= more
    ensures SameOrRunning(RunFunction(m, f, args, depth, limit, fuel), RunFunction(m, f, args, depth, limit, more))
    decreases fuel, 1
  {
    hide RunBlock;
    if depth <= limit && |args| == |f.params| {
      BlockFuel(m, f, 0, BindAll(map[], f.params, args), depth, limit, fuel, more);
    }
  }

  lemma {:induction false} BlockFuel(m: Module, f: Function, k: nat, env: Env, depth: nat, limit: nat, fuel: nat, more: nat)
    requires fuel <= more
    ensures SameOrRunning(RunBlock(m, f, k, env, depth, limit, fuel), RunBlock(m, f, k, env, depth, limit, more))
    decreases fuel, 0
  {
    if fuel > 0 && k < |f.blocks| {
      hide RunInsts, Terminate;
      InstsFuel(m, f.blocks[k].insts, env, depth, limit, fuel - 1, more - 1);
      var pr := RunInsts(m, f.blocks[k].insts, env, depth, limit, fuel - 1);
      if pr.Done? {
        var o := Terminate(f, f.blocks[k].term, pr.env);
        if o.GoesTo? {
          BlockFuel(m, f, o.index, o.env, depth, limit, fuel - 1, more - 1);
        }
      }
    }
  }

  lemma {:induction false} InstsFuel(m: Module, insts: seq<Inst>, env: Env, depth: nat, limit: nat, fuel: nat, more: nat)
    requires fuel <= more
    ensures SameProgress(RunInsts(m, insts, env, depth, limit, fuel), RunInsts(m, insts, env, depth, limit, more))
    decreases fuel, 3, |insts|
  {
    if insts != [] {
      hide Evaluate, Envelope.InEnvelope, RunFunction;
      if insts[0].Call? && insts[0].callee in m && AllIn(insts[0].args, env) {
        FunctionFuel(m, m[insts[0].callee], Lookup(insts[0].args, env), depth + 1, limit, fuel, more);
      }
      var first := RunInst(m, insts[0], env, depth, limit, fuel);
      if first.Done? {
        InstsFuel(m, insts[1..], first.env, depth, limit, fuel, more);
      }
    }
  }

  // ---------- Termination ----------

  /** If the reference run ends inside the envelope, then under every larger count the
      compiled run ends the same way, or exhausts an arena too small for it. */
  lemma EndsAlike(m: Module, n: string, args: seq<Value>, cells: seq<int>, budget: nat, mem: C.Memory, fuel: nat, more: nat)
    requires Request(m, n, args, cells, budget, mem) && fuel <= more
    requires var r := RunFunction(m, m[n], args, 0, budget, fuel); r.exact && !r.outcome.Running?
    ensures var r, flow := RunFunction(m, m[n], args, 0, budget, fuel), Compiled(m, n, cells, budget, mem, more);
            if Represent.Overruns(mem, r.used) then Exhausted(C.FlowMemory(flow)) else Corresponds(r.outcome, m[n].result, flow)
  {
    hide ModuleOk, Represent.Valid, ArgsRep, Compiled, RunFunction, Corresponds;
    FunctionFuel(m, m[n], args, 0, budget, fuel, more);
    GeneratedRefines(m, n, args, cells, budget, mem, more);
  }
}
