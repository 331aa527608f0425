/** Properties of every run of generated code, from every state: dispatch stays
    in range, a returned status of zero means no failure, modules without cells
    never touch the arena, and depth fuel is monotone. */
module Runs {
  import opened Words
  import opened Mncs
  import opened Emit
  import opened Poison
  import opened Orderly
  import opened Simulation
  import opened Blocks
  import opened SequenceSimulation
  import C = CLang
  import opened Execution

  // ---------- Dispatch ----------

  /** One trip through the `switch` at a block index runs that case alone, and
      leaves for another block index or not at all. */
  lemma DispatchInRange(m: Module, n: string, k: nat, depth: nat, st: C.State, fuel: nat)
    requires n in m && k < |m[n].blocks|
    ensures |CodeOf(m, n).cases| == |m[n].blocks|
    ensures var p, cases := ModuleCode(m), CodeOf(m, n).cases;
            var flow := C.Exec(p, C.SwitchTail(cases, k), depth, st, fuel);
            && flow == C.Exec(p, cases[k], depth, st, fuel)
            && !flow.Next?
            && (flow.Jump? ==> 0 <= flow.pc < |m[n].blocks|)
  {
    hide C.Exec, C.Run, C.SwitchTail, ModuleCode, FunctionCode, TermCode, InstsCode, NeedsArena, InOrder;
    var p, f, cases := ModuleCode(m), m[n], CodeOf(m, n).cases;
    var tail := C.SwitchTail(cases, k + 1);
    FunctionShape(f, NeedsArena(m));
    CaseShape(m, n, k);
    ExecAppend(p, BlockInsts(m, n, k), BlockTerm(m, n, k) + tail, depth, st, fuel);
    ExecAppend(p, BlockInsts(m, n, k), BlockTerm(m, n, k), depth, st, fuel);
    var flow := C.Exec(p, BlockInsts(m, n, k), depth, st, fuel);
    if flow.Next? {
      ExecAppend(p, BlockTerm(m, n, k), tail, depth, flow.st, fuel);
      CallFreeExec(p, BlockTerm(m, n, k), depth, flow.st, fuel);
      TermNeverNext(NamesOf(f), f, f.blocks[k].term, NeedsArena(m), depth, flow.st);
    }
    ModuleInOrder(m);
    SameCode(m, n);
    assert CasesInOrder(p[n], NeedsArena(m));
    JumpsInRange(p, cases[k], |cases|, NeedsArena(m), depth, st, fuel);
  }

  /** The values of `mncs_pc` that an activation dispatches on. */
  function Dispatches(p: C.Program, f: C.Function, pc: int, depth: nat, st: C.State, fuel: nat): seq<int>
    decreases fuel
  {
    if fuel == 0 then []
    else
      var body := C.Exec(p, C.SwitchTail(f.cases, pc), depth, st, fuel - 1);
      [pc] + match body
             case Jump(next, st') => Dispatches(p, f, next, depth, st', fuel - 1)
             case Next(st') => Dispatches(p, f, pc, depth, st', fuel - 1)
             case _ => []
  }

  predicate AllBelow(xs: seq<int>, n: nat) { forall i | 0 <= i < |xs| :: 0 <= xs[i] < n }

  lemma BelowCons(x: int, xs: seq<int>, n: nat)
    requires 0 <= x < n && AllBelow(xs, n)
    ensures AllBelow([x] + xs, n)
  {
  }

  /** From any state, a trip through the `switch` leaves for an index below `|f.cases|`. */
  ghost predicate Confined(p: C.Program, f: C.Function) {
    forall k, depth, st, fuel | 0 <= k < |f.cases| :: Leaves(C.Exec(p, C.SwitchTail(f.cases, k), depth, st, fuel), |f.cases|)
  }

  predicate Leaves(flow: C.Flow, n: nat) { !flow.Next? && (flow.Jump? ==> 0 <= flow.pc < n) }

  lemma {:induction false} ConfinedRuns(p: C.Program, f: C.Function, pc: int, depth: nat, st: C.State, fuel: nat)
    requires Confined(p, f) && 0 <= pc < |f.cases|
    ensures AllBelow(Dispatches(p, f, pc, depth, st, fuel), |f.cases|)
    decreases fuel
  {
    hide C.Exec, C.SwitchTail, AllBelow;
    BelowNone(|f.cases|);
    if fuel > 0 {
      var body := C.Exec(p, C.SwitchTail(f.cases, pc), depth, st, fuel - 1);
      assert Leaves(body, |f.cases|);
      var rest := if body.Jump? then Dispatches(p, f, body.pc, depth, body.st, fuel - 1) else [];
      if body.Jump? {
        ConfinedRuns(p, f, body.pc, depth, body.st, fuel - 1);
      }
      BelowCons(pc, rest, |f.cases|);
    }
  }

  lemma BelowNone(n: nat)
    ensures AllBelow([], n)
  {
  }

  /** `default` is never taken, whatever the state and however long the run. */
  lemma DefaultNeverTaken(m: Module, n: string, pc: int, depth: nat, st: C.State, fuel: nat)
    requires n in m && 0 <= pc < |m[n].blocks|
    ensures AllBelow(Dispatches(ModuleCode(m), CodeOf(m, n), pc, depth, st, fuel), |m[n].blocks|)
  {
    hide C.Exec, C.SwitchTail, ModuleCode, FunctionCode, NeedsArena, Dispatches, AllBelow;
    var p, f := ModuleCode(m), CodeOf(m, n);
    FunctionShape(m[n], NeedsArena(m));
    forall k, d, s, fl | 0 <= k < |f.cases|
      ensures Leaves(C.Exec(p, C.SwitchTail(f.cases, k), d, s, fl), |f.cases|)
    {
      DispatchInRange(m, n, k, d, s, fl);
    }
    ConfinedRuns(p, f, pc, depth, st, fuel);
  }

  // ---------- Status zero ----------

  /** A zero status never covers a failure. */
  predicate Honest(f: C.Flow) { f.Exit? && f.mem.status == 0 ==> !f.mem.failed }

  lemma {:induction false} ExecHonest(p: C.Program, ss: seq<C.Stmt>, n: nat, depth: nat, st: C.State, fuel: nat)
    requires InOrder(ss, n, true)
    ensures Honest(C.Exec(p, ss, depth, st, fuel))
    decreases ss
  {
    if ss != [] {
      hide C.Eval, C.Activate, C.EvalArgs;
      ExecCons(p, ss[0], ss[1..], depth, st, fuel);
      assert ss == [ss[0]] + ss[1..] && [ss[0]][1..] == [];
      var f := C.Exec(p, [ss[0]], depth, st, fuel);
      if ss[0].If? {
        var r := C.Eval(ss[0].test, st.vars);
        if r.Ok? {
          if r.v.n != 0 { ExecHonest(p, ss[0].thn, n, depth, st, fuel); } else { ExecHonest(p, ss[0].els, n, depth, st, fuel); }
        }
      } else if ss[0].Call? {
        ExecOneCall(p, ss[0], depth, st, fuel);
      }
      if f.Next? {
        if ss[0].LeaveIfFailed? {
          ExecCons(p, ss[1], ss[2..], depth, f.st, fuel);
          assert ss[1..] == [ss[1]] + ss[2..] && [ss[1]][1..] == [];
        } else {
          ExecHonest(p, ss[1..], n, depth, f.st, fuel);
        }
      }
    }
  }

  lemma {:induction false} TailInOrder(cases: seq<seq<C.Stmt>>, pc: int, heap: bool)
    requires forall k | 0 <= k < |cases| :: InOrder(cases[k], |cases|, heap)
    ensures InOrder(C.SwitchTail(cases, pc), |cases|, heap)
    decreases if 0 <= pc <= |cases| then |cases| - pc else 0
  {
    if 0 <= pc < |cases| {
      TailInOrder(cases, pc + 1, heap);
      InOrderAppend(cases[pc], C.SwitchTail(cases, pc + 1), |cases|, heap);
    } else {
      AllSound([C.Leave(1)], |cases|, heap);
    }
  }

  lemma {:induction false} LoopHonest(p: C.Program, f: C.Function, pc: int, depth: nat, st: C.State, fuel: nat)
    requires CasesInOrder(f, true)
    ensures Honest(C.Loop(p, f, pc, depth, st, fuel))
    decreases fuel
  {
    if fuel > 0 {
      hide C.Exec, C.SwitchTail, InOrder;
      TailInOrder(f.cases, pc, true);
      var body := C.Exec(p, C.SwitchTail(f.cases, pc), depth, st, fuel - 1);
      ExecHonest(p, C.SwitchTail(f.cases, pc), |f.cases|, depth, st, fuel - 1);
      if body.Jump? {
        LoopHonest(p, f, body.pc, depth, body.st, fuel - 1);
      } else if body.Next? {
        LoopHonest(p, f, pc, depth, body.st, fuel - 1);
      }
    }
  }

  ghost predicate Uniform(p: C.Program, heap: bool) {
    ProgramInOrder(p, heap) && forall n | n in p :: p[n].prologue == Prologue(heap)
  }

  lemma ModuleUniform(m: Module)
    ensures Uniform(ModuleCode(m), NeedsArena(m))
  {
    hide NeedsArena, CasesFrom, NamesOf, InOrder, Declarations;
    ModuleInOrder(m);
  }

  /** In a module with an arena, every activation that reports success leaves the
      failure flag clear: a poisoned value never escapes. */
  lemma NoPoisonEscapes(m: Module, n: string, cells: seq<int>, depth: nat, mem: C.Memory, fuel: nat)
    requires n in m && NeedsArena(m)
    ensures Honest(C.Activate(ModuleCode(m), CodeOf(m, n), cells, depth, mem, fuel))
  {
    hide C.Loop, NeedsArena, ModuleCode, FunctionCode, C.Run, InOrder, C.DeclTypes, C.BindParams, Prologue;
    var p, f := ModuleCode(m), CodeOf(m, n);
    ModuleUniform(m);
    SameCode(m, n);
    if |cells| == |f.params| {
      var st := C.State(C.Locals(C.DeclTypes(f.params + f.decls), C.BindParams(f.params, cells)), mem);
      RunPrologue(NeedsArena(m), depth, st);
      if depth <= MAX_CALL_DEPTH {
        LoopHonest(p, f, 0, depth, Reset(NeedsArena(m), depth, st), fuel);
      }
    }
  }

  lemma SameCode(m: Module, n: string)
    requires n in m
    ensures n in ModuleCode(m) && ModuleCode(m)[n] == CodeOf(m, n) && CodeOf(m, n).prologue == Prologue(NeedsArena(m))
  {
    hide NeedsArena, CasesFrom, NamesOf, Declarations, Prologue;
  }

  /** Once a block's code has set the flag, the activation that ran it ends, if
      it ends, with a failure status, the arena frozen as it was. */
  lemma PoisonStops(m: Module, n: string, k: nat, depth: nat, st: C.State, fuel: nat)
    requires n in m && k < |m[n].blocks| && NeedsArena(m) && depth <= MAX_CALL_DEPTH && fuel > 0
    requires C.FlowMemory(C.Exec(ModuleCode(m), BlockInsts(m, n, k), depth, st, fuel - 1)).failed
    ensures var at := C.FlowMemory(C.Exec(ModuleCode(m), BlockInsts(m, n, k), depth, st, fuel - 1));
            var end := C.Loop(ModuleCode(m), CodeOf(m, n), k, depth, st, fuel);
            && Poisoned(at, C.FlowMemory(end))
            && (end.Exit? ==> end.mem.status != 0)
  {
    hide C.Loop, C.Exec, NeedsArena, ModuleCode, FunctionCode, InOrder, C.SwitchTail, BlockInsts, BlockTerm;
    ModuleHardened(m);
    CaseShape(m, n, k);
    FunctionShape(m[n], NeedsArena(m));
    ModuleUniform(m);
    SameCode(m, n);
    var p, code := ModuleCode(m), CodeOf(m, n);
    FailureStays(p, BlockInsts(m, n, k), BlockTerm(m, n, k) + C.SwitchTail(code.cases, k + 1), depth, st, fuel - 1);
    LoopFails(p, code, k, depth, st, fuel);
    LoopHonest(p, code, k, depth, st, fuel);
  }

  // ---------- Modules without cells ----------

  /** Instructions that build a sequence or reach into one. */
  predicate TouchesCells(inst: Inst) {
    inst.SequenceConstruct? || inst.SequenceReplace? || inst.SequenceCopy? || inst.SequenceProject?
  }

  predicate Composite(ty: Ty) { ty.TSeq? || ty.TView? }

  predicate FunctionTouches(f: Function) {
    || (exists p | p in f.params :: Composite(p.ty)) || Composite(f.result)
    || (exists b | b in f.blocks :: exists i | i in b.insts :: TouchesCells(i))
  }

  lemma {:induction false} LoweredUses(insts: seq<Inst>)
    requires forall i | i in insts :: Source(i)
    ensures (exists i | i in Flatten(LowerAll(insts)) :: UsesCells(i)) <==> exists i | i in insts :: TouchesCells(i)
  {
    if insts != [] {
      var all := LowerAll(insts);
      assert all[0] == Lower(insts[0]) && all[1..] == LowerAll(insts[1..]);
      LoweredUses(insts[1..]);
      OneUses(insts[0]);
      FlattenOne(all[0]);
      hide Flatten, LowerAll, Lower, Source, UsesCells, TouchesCells;
      FlattenHead(all);
      assert forall i :: i in insts <==> i == insts[0] || i in insts[1..];
      assert forall i :: i in Flatten(all) <==> i in Flatten([all[0]]) || i in Flatten(all[1..]);
    } else {
      assert LowerAll(insts) == [];
    }
  }

  lemma FlattenHead(insts: seq<Inst>)
    requires insts != []
    ensures Flatten(insts) == Flatten([insts[0]]) + Flatten(insts[1..])
  {
    assert [insts[0]][1..] == [];
  }

  lemma OneUses(inst: Inst)
    requires Source(inst)
    ensures (exists i | i in Flatten([Lower(inst)]) :: UsesCells(i)) <==> TouchesCells(inst)
  {
    FlattenOne(Lower(inst));
    if inst.SequenceConstruct? {
      var elem := if inst.dest.ty.TSeq? then inst.dest.ty.elem else inst.dest.ty;
      var alloc := CellAlloc(inst.dest, |inst.inputs| * 8);
      FlattenHead([alloc] + LowerStores(inst.dest.id, inst.inputs, SlotWidthOf(elem), 0));
      FlattenOne(alloc);
      assert Flatten([Lower(inst)])[0] == alloc && UsesCells(alloc);
    } else {
      assert Flatten([Lower(inst)]) == [inst];
      assert inst in [inst];
    }
  }

  /** A module's C text declares the arena exactly when a function takes, returns,
      builds or reads a sequence or a view: a scalar module has none. */
  lemma ArenaNeeded(m: Module)
    requires forall n, b, i | n in m && b in m[n].blocks && i in b.insts :: Source(i)
    ensures NeedsArena(m) <==> exists n | n in m :: FunctionTouches(m[n])
  {
    forall n | n in m
      ensures FunctionTouches(m[n]) <==> (FunctionUsesCells(m[n]) || (exists p | p in m[n].params :: p.ty.TView?) || m[n].result.TView?)
    {
      BlocksTouch(m[n]);
    }
  }

  lemma BlocksTouch(f: Function)
    requires forall b, i | b in f.blocks && i in b.insts :: Source(i)
    ensures FunctionTouches(f) <==> (FunctionUsesCells(f) || (exists p | p in f.params :: p.ty.TView?) || f.result.TView?)
  {
    forall b | b in f.blocks
      ensures (exists i | i in Flatten(LowerAll(b.insts)) :: UsesCells(i)) <==> exists i | i in b.insts :: TouchesCells(i)
    {
      LoweredUses(b.insts);
    }
    hide UsesCells, TouchesCells, Flatten, LowerAll;
  }

  predicate Untouched(a: C.Memory, b: C.Memory) {
    a.arena == b.arena && a.bump == b.bump && a.failed == b.failed && a.exhausted == b.exhausted
  }

  lemma {:induction false} ExecHeapless(p: C.Program, ss: seq<C.Stmt>, n: nat, depth: nat, st: C.State, fuel: nat)
    requires Uniform(p, false) && InOrder(ss, n, false)
    ensures Untouched(st.mem, C.FlowMemory(C.Exec(p, ss, depth, st, fuel)))
    decreases fuel, 3, ss
  {
    if ss != [] {
      hide C.Eval, C.EvalArgs, C.Activate;
      ExecCons(p, ss[0], ss[1..], depth, st, fuel);
      assert ss == [ss[0]] + ss[1..] && [ss[0]][1..] == [];
      var f := C.Exec(p, [ss[0]], depth, st, fuel);
      if ss[0].If? {
        var r := C.Eval(ss[0].test, st.vars);
        if r.Ok? {
          if r.v.n != 0 { ExecHeapless(p, ss[0].thn, n, depth, st, fuel); } else { ExecHeapless(p, ss[0].els, n, depth, st, fuel); }
        }
      } else if ss[0].Call? {
        ExecOneCall(p, ss[0], depth, st, fuel);
        var vals := C.EvalArgs(ss[0].args, st.vars);
        if vals.0 && ss[0].callee in p {
          ActivateHeapless(p, ss[0].callee, vals.1, (depth + 1) % TWO_64, st.mem, fuel);
        }
      }
      if f.Next? {
        if ss[0].LeaveIfFailed? {
          ExecCons(p, ss[1], ss[2..], depth, f.st, fuel);
          assert ss[1..] == [ss[1]] + ss[2..] && [ss[1]][1..] == [];
        } else {
          ExecHeapless(p, ss[1..], n, depth, f.st, fuel);
        }
      }
    }
  }

  lemma {:induction false} LoopHeapless(p: C.Program, f: C.Function, pc: int, depth: nat, st: C.State, fuel: nat)
    requires Uniform(p, false) && CasesInOrder(f, false)
    ensures Untouched(st.mem, C.FlowMemory(C.Loop(p, f, pc, depth, st, fuel)))
    decreases fuel, 0
  {
    if fuel > 0 {
      hide C.Exec, C.SwitchTail, InOrder, Uniform;
      TailInOrder(f.cases, pc, false);
      var body := C.Exec(p, C.SwitchTail(f.cases, pc), depth, st, fuel - 1);
      ExecHeapless(p, C.SwitchTail(f.cases, pc), |f.cases|, depth, st, fuel - 1);
      if body.Jump? {
        LoopHeapless(p, f, body.pc, depth, body.st, fuel - 1);
      } else if body.Next? {
        LoopHeapless(p, f, pc, depth, body.st, fuel - 1);
      }
    }
  }

  lemma {:induction false} ActivateHeapless(p: C.Program, callee: string, args: seq<int>, depth: nat, m: C.Memory, fuel: nat)
    requires Uniform(p, false) && callee in p
    ensures Untouched(m, C.FlowMemory(C.Activate(p, p[callee], args, depth, m, fuel)))
    decreases fuel, 1
  {
    hide C.Loop, C.Run, InOrder, C.DeclTypes, C.BindParams, Prologue;
    var f := p[callee];
    if |args| == |f.params| {
      var st := C.State(C.Locals(C.DeclTypes(f.params + f.decls), C.BindParams(f.params, args)), m);
      RunPrologue(false, depth, st);
      if depth <= MAX_CALL_DEPTH {
        LoopHeapless(p, f, 0, depth, st, fuel);
      }
    }
  }

  // ---------- Depth fuel ----------

  predicate OutOfDepth(f: C.Flow) { f.Exit? && f.mem.status == 3 }

  /** The run at the greater depth is the run at the lesser, or ran out of depth. */
  predicate SameOrOut(deep: C.Flow, shallow: C.Flow) { deep == shallow || OutOfDepth(deep) }

  lemma StepIgnoresDepth(s: C.Stmt, n: nat, heap: bool, a: nat, b: nat, st: C.State)
    requires !s.If? && !s.Call? && (s.LeaveIfFailed? || s.ReturnValue? || Sound(s, n, heap))
    ensures C.Step(s, a, st) == C.Step(s, b, st)
  {
    hide C.Eval;
  }

  lemma {:induction false} ExecDepth(p: C.Program, heap: bool, ss: seq<C.Stmt>, n: nat, deep: nat, shallow: nat, st: C.State, fuel: nat)
    requires Uniform(p, heap) && InOrder(ss, n, heap) && shallow <= deep <= MAX_CALL_DEPTH
    ensures SameOrOut(C.Exec(p, ss, deep, st, fuel), C.Exec(p, ss, shallow, st, fuel))
    decreases fuel, 3, ss
  {
    if ss != [] {
      hide C.Eval, C.EvalArgs, C.Activate, C.Step;
      ExecCons(p, ss[0], ss[1..], deep, st, fuel);
      ExecCons(p, ss[0], ss[1..], shallow, st, fuel);
      assert ss == [ss[0]] + ss[1..] && [ss[0]][1..] == [];
      var a, b := C.Exec(p, [ss[0]], deep, st, fuel), C.Exec(p, [ss[0]], shallow, st, fuel);
      if ss[0].Call? {
        CallDepth(p, heap, ss[0], deep, shallow, st, fuel);
        StatusChecked(p, ss, deep, st, fuel);
      } else if ss[0].If? {
        var r := C.Eval(ss[0].test, st.vars);
        if r.Ok? {
          if r.v.n != 0 { ExecDepth(p, heap, ss[0].thn, n, deep, shallow, st, fuel); } else { ExecDepth(p, heap, ss[0].els, n, deep, shallow, st, fuel); }
        }
      } else {
        StepIgnoresDepth(ss[0], n, heap, deep, shallow, st);
      }
      if a == b && a.Next? {
        if ss[0].LeaveIfFailed? {
          ExecCons(p, ss[1], ss[2..], deep, a.st, fuel);
          ExecCons(p, ss[1], ss[2..], shallow, a.st, fuel);
          assert ss[1..] == [ss[1]] + ss[2..] && [ss[1]][1..] == [];
          StepIgnoresDepth(ss[1], n, heap, deep, shallow, a.st);
          ReturnEnds(ss[1], deep, a.st);
        } else {
          ExecDepth(p, heap, ss[1..], n, deep, shallow, a.st, fuel);
        }
      }
    }
  }

  lemma ReturnEnds(s: C.Stmt, depth: nat, st: C.State)
    requires s.ReturnValue?
    ensures !C.Step(s, depth, st).Next?
  {
    hide C.Eval;
  }

  /** A callee that ran out of depth ends its caller the same way. */
  lemma StatusChecked(p: C.Program, ss: seq<C.Stmt>, depth: nat, st: C.State, fuel: nat)
    requires |ss| > 1 && ss[0].Call? && ss[1].ReturnIfStatus?
    ensures var f := C.Exec(p, [ss[0]], depth, st, fuel);
            f.Next? && f.st.mem.status == 3 ==> OutOfDepth(C.Exec(p, ss, depth, st, fuel))
  {
    hide C.Activate, C.EvalArgs;
    ExecCons(p, ss[0], ss[1..], depth, st, fuel);
    assert ss == [ss[0]] + ss[1..];
    var f := C.Exec(p, [ss[0]], depth, st, fuel);
    if f.Next? {
      ExecCons(p, ss[1], ss[2..], depth, f.st, fuel);
      assert ss[1..] == [ss[1]] + ss[2..] && [ss[1]][1..] == [];
    }
  }

  lemma {:induction false} CallDepth(p: C.Program, heap: bool, s: C.Stmt, deep: nat, shallow: nat, st: C.State, fuel: nat)
    requires Uniform(p, heap) && s.Call? && shallow <= deep <= MAX_CALL_DEPTH
    ensures var a, b := C.Exec(p, [s], deep, st, fuel), C.Exec(p, [s], shallow, st, fuel);
            a == b || (a.Next? && a.st.mem.status == 3)
    decreases fuel, 2
  {
    hide C.Activate, C.EvalArgs, Uniform;
    ExecOneCall(p, s, deep, st, fuel);
    ExecOneCall(p, s, shallow, st, fuel);
    ModUniqueDepth(deep);
    ModUniqueDepth(shallow);
    var vals := C.EvalArgs(s.args, st.vars);
    if vals.0 && s.callee in p {
      ActivateDepth(p, heap, s.callee, vals.1, deep + 1, shallow + 1, st.mem, fuel);
    }
  }

  lemma {:induction false} ActivateDepth(p: C.Program, heap: bool, callee: string, args: seq<int>, deep: nat, shallow: nat, m: C.Memory, fuel: nat)
    requires Uniform(p, heap) && callee in p && shallow <= deep
    requires shallow == 0 < deep && heap ==> !m.failed && !m.exhausted
    ensures SameOrOut(C.Activate(p, p[callee], args, deep, m, fuel), C.Activate(p, p[callee], args, shallow, m, fuel))
    decreases fuel, 1
  {
    hide C.Loop, C.Run, InOrder, C.DeclTypes, C.BindParams, Prologue;
    var f := p[callee];
    if |args| == |f.params| {
      var st := C.State(C.Locals(C.DeclTypes(f.params + f.decls), C.BindParams(f.params, args)), m);
      RunPrologue(heap, deep, st);
      RunPrologue(heap, shallow, st);
      if deep <= MAX_CALL_DEPTH {
        assert Reset(heap, deep, st) == Reset(heap, shallow, st);
        LoopDepth(p, heap, f, 0, deep, shallow, Reset(heap, deep, st), fuel);
      }
    }
  }

  lemma {:induction false} LoopDepth(p: C.Program, heap: bool, f: C.Function, pc: int, deep: nat, shallow: nat, st: C.State, fuel: nat)
    requires Uniform(p, heap) && CasesInOrder(f, heap) && shallow <= deep <= MAX_CALL_DEPTH
    ensures SameOrOut(C.Loop(p, f, pc, deep, st, fuel), C.Loop(p, f, pc, shallow, st, fuel))
    decreases fuel, 0
  {
    if fuel > 0 {
      hide C.Exec, C.SwitchTail, InOrder, Uniform;
      TailInOrder(f.cases, pc, heap);
      ExecDepth(p, heap, C.SwitchTail(f.cases, pc), |f.cases|, deep, shallow, st, fuel - 1);
      var body := C.Exec(p, C.SwitchTail(f.cases, pc), deep, st, fuel - 1);
      if body.Jump? {
        LoopDepth(p, heap, f, body.pc, deep, shallow, body.st, fuel - 1);
      } else if body.Next? {
        LoopDepth(p, heap, f, pc, deep, shallow, body.st, fuel - 1);
      }
    }
  }

  /** A run that does not run out of depth gives the same status, value and arena
      when it starts with more fuel left. */
  lemma DepthMonotone(m: Module, n: string, cells: seq<int>, deep: nat, shallow: nat, mem: C.Memory, fuel: nat)
    requires n in m && shallow <= deep
    requires shallow == 0 < deep && NeedsArena(m) ==> !mem.failed && !mem.exhausted
    ensures var run := C.Activate(ModuleCode(m), CodeOf(m, n), cells, deep, mem, fuel);
            !OutOfDepth(run) ==> C.Activate(ModuleCode(m), CodeOf(m, n), cells, shallow, mem, fuel) == run
  {
    hide C.Activate, NeedsArena, ModuleCode, FunctionCode, Uniform;
    ModuleUniform(m);
    SameCode(m, n);
    ActivateDepth(ModuleCode(m), NeedsArena(m), n, cells, deep, shallow, mem, fuel);
  }
}
