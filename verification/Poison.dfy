/** No poisoned value escapes: the emitted code never clears a failure flag below
    the top level, so once an allocation or an access fails every enclosing
    activation ends with a failure status. */
module Poison {
  import opened Mncs
  import opened Emit
  import opened Discipline
  import opened Blocks
  import C = CLang
  import opened Execution

  // ---------- The emitted code never resets ----------

  lemma {:induction false} FlattenPlain(insts: seq<Inst>)
    ensures forall i | i in Flatten(insts) :: !i.Group?
    decreases insts
  {
    if insts != [] {
      if insts[0].Group? {
        FlattenPlain(insts[0].insts);
      }
      FlattenPlain(insts[1..]);
    }
  }

  lemma {:induction false} InstsNoReset(names: Names, insts: seq<Inst>)
    requires forall i | i in insts :: !i.Group?
    ensures NoReset(InstsCode(names, insts))
  {
    if insts != [] {
      hide InstCode;
      InstsNoReset(names, insts[1..]);
      OneNoReset(names, insts[0]);
      NoResetAppend(InstCode(names, insts[0]), InstsCode(names, insts[1..]));
    }
  }

  lemma {:induction false} StepsNoReset(ss: seq<C.Stmt>)
    requires forall i | 0 <= i < |ss| :: !ss[i].ResetAtTop? && !ss[i].If?
    ensures NoReset(ss)
  {
    if ss != [] {
      StepsNoReset(ss[1..]);
    }
  }

  lemma OneNoReset(names: Names, inst: Inst)
    requires !inst.Group?
    ensures NoReset(InstCode(names, inst))
  {
    if inst.Call? {
      StepsNoReset(InstCode(names, inst));
    } else {
      hide InstCode;
      InstTame(names, inst);
      TameShape(InstCode(names, inst), TargetOf(names, inst));
    }
  }

  lemma BlockNoReset(names: Names, f: Function, b: Block, hasArena: bool)
    ensures NoReset(BlockCode(names, f, b, hasArena))
  {
    FlattenPlain(LowerAll(b.insts));
    InstsNoReset(names, Flatten(LowerAll(b.insts)));
    TermPlain(names, f, b.term, hasArena);
    NoResetAppend(InstsCode(names, Flatten(LowerAll(b.insts))), TermCode(names, f, b.term, hasArena));
  }

  lemma {:induction false} CasesAt(names: Names, f: Function, from: nat, hasArena: bool)
    requires from <= |f.blocks|
    ensures |CasesFrom(names, f, from, hasArena)| == |f.blocks| - from
    ensures forall k | from <= k < |f.blocks| :: CasesFrom(names, f, from, hasArena)[k - from] == BlockCode(names, f, f.blocks[k], hasArena)
    decreases |f.blocks| - from
  {
    hide BlockCode;
    if from < |f.blocks| {
      CasesAt(names, f, from + 1, hasArena);
    }
  }

  lemma FunctionShape(f: Function, hasArena: bool)
    ensures CasesNoReset(FunctionCode(f, hasArena).cases) && GuardsDepth(FunctionCode(f, hasArena))
    ensures |FunctionCode(f, hasArena).cases| == |f.blocks|
    ensures forall k | 0 <= k < |f.blocks| :: FunctionCode(f, hasArena).cases[k] == BlockCode(NamesOf(f), f, f.blocks[k], hasArena)
  {
    hide BlockCode, NamesOf;
    var names := NamesOf(f);
    CasesAt(names, f, 0, hasArena);
    var cases := FunctionCode(f, hasArena).cases;
    forall k | 0 <= k < |cases|
      ensures NoReset(cases[k])
    {
      assert cases[k] == CasesFrom(names, f, 0, hasArena)[k - 0] == BlockCode(names, f, f.blocks[k], hasArena);
      BlockNoReset(names, f, f.blocks[k], hasArena);
    }
  }

  ghost predicate Hardened(p: C.Program) { BodiesNoReset(p) && forall n | n in p :: GuardsDepth(p[n]) }

  lemma ModuleHardened(m: Module)
    ensures Hardened(ModuleCode(m))
  {
    hide FunctionCode, NeedsArena;
    forall n | n in m
      ensures CasesNoReset(ModuleCode(m)[n].cases) && GuardsDepth(ModuleCode(m)[n])
    {
      FunctionShape(m[n], NeedsArena(m));
    }
  }

  /** A failure part-way through a list is still there at its end. */
  lemma FailureStays(p: C.Program, a: seq<C.Stmt>, b: seq<C.Stmt>, depth: nat, st: C.State, fuel: nat)
    requires Hardened(p) && NoReset(b) && DepthOk(depth)
    requires C.FlowMemory(C.Exec(p, a, depth, st, fuel)).failed
    ensures Poisoned(C.FlowMemory(C.Exec(p, a, depth, st, fuel)), C.FlowMemory(C.Exec(p, a + b, depth, st, fuel)))
  {
    hide C.Exec, C.Step, C.Eval;
    ExecAppend(p, a, b, depth, st, fuel);
    var f := C.Exec(p, a, depth, st, fuel);
    if f.Next? {
      ExecPoisoned(p, b, depth, f.st, fuel);
    }
  }

  /** A failure inside one iteration is still there when the activation ends. */
  lemma LoopFails(p: C.Program, f: C.Function, pc: int, depth: nat, st: C.State, fuel: nat)
    requires Hardened(p) && CasesNoReset(f.cases) && DepthOk(depth) && fuel > 0
    requires C.FlowMemory(C.Exec(p, C.SwitchTail(f.cases, pc), depth, st, fuel - 1)).failed
    ensures Poisoned(C.FlowMemory(C.Exec(p, C.SwitchTail(f.cases, pc), depth, st, fuel - 1)), C.FlowMemory(C.Loop(p, f, pc, depth, st, fuel)))
  {
    hide C.Exec, C.Step, C.Eval;
    var body := C.Exec(p, C.SwitchTail(f.cases, pc), depth, st, fuel - 1);
    if body.Jump? {
      LoopPoisoned(p, f, body.pc, depth, body.st, fuel - 1);
    } else if body.Next? {
      LoopPoisoned(p, f, pc, depth, body.st, fuel - 1);
    }
  }
}
