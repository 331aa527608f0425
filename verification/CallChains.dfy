/** How deep activations nest: over a whole run, no chain of activations that run
    blocks is longer than the depth cap leaves room for. */
module CallChains {
  import opened Words
  import opened Mncs
  import opened Emit
  import opened Runs
  import opened Simulation
  import C = CLang

  function Longer(a: nat, b: nat): nat { if a < b then b else a }

  /** The longest chain of nested activations in one activation's run, itself
      included, counting those that reach the dispatch loop. */
  function ActivateChain(p: C.Program, f: C.Function, args: seq<int>, depth: nat, m: C.Memory, fuel: nat): nat
    decreases fuel, 1
  {
    if |args| != |f.params| then 0
    else
      var vars := C.Locals(C.DeclTypes(f.params + f.decls), C.BindParams(f.params, args));
      var entered := C.Run(f.prologue, depth, C.State(vars, m));
      if entered.Next? then 1 + LoopChain(p, f, 0, depth, entered.st, fuel) else 0
  }

  function LoopChain(p: C.Program, f: C.Function, pc: int, depth: nat, st: C.State, fuel: nat): nat
    decreases fuel, 0
  {
    if fuel == 0 then 0
    else
      var tail := C.SwitchTail(f.cases, pc);
      var body := C.Exec(p, tail, depth, st, fuel - 1);
      var later :=
        if body.Jump? then LoopChain(p, f, body.pc, depth, body.st, fuel - 1)
        else if body.Next? then LoopChain(p, f, pc, depth, body.st, fuel - 1)
        else 0;
      Longer(ExecChain(p, tail, depth, st, fuel - 1), later)
  }

  function ExecChain(p: C.Program, ss: seq<C.Stmt>, depth: nat, st: C.State, fuel: nat): nat
    decreases fuel, 3, ss
  {
    if ss == [] then 0
    else
      var here :=
        match ss[0]
        case Call(callee, args) =>
          var vals := C.EvalArgs(args, st.vars);
          if !vals.0 || callee !in p then 0 else ActivateChain(p, p[callee], vals.1, (depth + 1) % TWO_64, st.mem, fuel)
        case If(test, thn, els) =>
          var r := C.Eval(test, st.vars);
          if r.Undef? then 0 else if r.v.n != 0 then ExecChain(p, thn, depth, st, fuel) else ExecChain(p, els, depth, st, fuel)
        case _ => 0;
      var f := C.Exec(p, [ss[0]], depth, st, fuel);
      Longer(here, if f.Next? then ExecChain(p, ss[1..], depth, f.st, fuel) else 0)
  }

  /** How many activations the cap lets nest, counted from an entry depth. */
  function Allowed(depth: nat): nat { if depth > MAX_CALL_DEPTH then 0 else MAX_CALL_DEPTH + 1 - depth }

  lemma {:induction false} ActivateChainBound(p: C.Program, heap: bool, callee: string, args: seq<int>, depth: nat, m: C.Memory, fuel: nat)
    requires Uniform(p, heap) && callee in p
    ensures ActivateChain(p, p[callee], args, depth, m, fuel) <= Allowed(depth)
    decreases fuel, 1
  {
    hide C.Run, C.DeclTypes, C.BindParams, Prologue, LoopChain;
    var f := p[callee];
    if |args| == |f.params| {
      var st := C.State(C.Locals(C.DeclTypes(f.params + f.decls), C.BindParams(f.params, args)), m);
      RunPrologue(heap, depth, st);
      if depth <= MAX_CALL_DEPTH {
        LoopChainBound(p, heap, f, 0, depth, Reset(heap, depth, st), fuel);
      }
    }
  }

  lemma {:induction false} LoopChainBound(p: C.Program, heap: bool, f: C.Function, pc: int, depth: nat, st: C.State, fuel: nat)
    requires Uniform(p, heap) && depth <= MAX_CALL_DEPTH
    ensures LoopChain(p, f, pc, depth, st, fuel) <= Allowed(depth + 1)
    decreases fuel, 0
  {
    if fuel > 0 {
      hide C.Exec, C.Run, C.Step, C.SwitchTail, C.Eval, C.EvalArgs, Uniform, ExecChain, ActivateChain;
      var body := C.Exec(p, C.SwitchTail(f.cases, pc), depth, st, fuel - 1);
      ExecChainBound(p, heap, C.SwitchTail(f.cases, pc), depth, st, fuel - 1);
      if body.Jump? {
        LoopChainBound(p, heap, f, body.pc, depth, body.st, fuel - 1);
      } else if body.Next? {
        LoopChainBound(p, heap, f, pc, depth, body.st, fuel - 1);
      }
    }
  }

  lemma {:induction false} ExecChainBound(p: C.Program, heap: bool, ss: seq<C.Stmt>, depth: nat, st: C.State, fuel: nat)
    requires Uniform(p, heap) && depth <= MAX_CALL_DEPTH
    ensures ExecChain(p, ss, depth, st, fuel) <= Allowed(depth + 1)
    decreases fuel, 3, ss
  {
    if ss != [] {
      hide C.Eval, C.EvalArgs, C.Exec, ActivateChain, Uniform;
      if ss[0].If? {
        var r := C.Eval(ss[0].test, st.vars);
        if r.Ok? {
          if r.v.n != 0 { ExecChainBound(p, heap, ss[0].thn, depth, st, fuel); } else { ExecChainBound(p, heap, ss[0].els, depth, st, fuel); }
        }
      } else if ss[0].Call? {
        var vals := C.EvalArgs(ss[0].args, st.vars);
        if vals.0 && ss[0].callee in p {
          ModUniqueDepth(depth);
          ActivateChainBound(p, heap, ss[0].callee, vals.1, depth + 1, st.mem, fuel);
        }
      }
      var f := C.Exec(p, [ss[0]], depth, st, fuel);
      if f.Next? {
        ExecChainBound(p, heap, ss[1..], depth, f.st, fuel);
      }
    }
  }

  /** Over any run of any module, from any state: activations entered deeper than the
      cap run nothing, and no chain is longer than what the cap leaves. */
  lemma ChainsAreBounded(m: Module, n: string, cells: seq<int>, depth: nat, mem: C.Memory, fuel: nat)
    requires n in m
    ensures ActivateChain(ModuleCode(m), CodeOf(m, n), cells, depth, mem, fuel) <= Allowed(depth)
  {
    hide ActivateChain, NeedsArena, ModuleCode, FunctionCode, Uniform;
    ModuleUniform(m);
    SameCode(m, n);
    ActivateChainBound(ModuleCode(m), NeedsArena(m), n, cells, depth, mem, fuel);
  }
}
