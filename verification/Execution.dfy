/** How emitted statement lists compose, and what they can never do to the
    failure flags and the arena. */
module Execution {
  import opened Words
  import opened CLang

  // ---------- Composition ----------

  lemma {:induction false} RunAppend(a: seq<Stmt>, b: seq<Stmt>, depth: nat, st: State)
    ensures Run(a + b, depth, st) == (var f := Run(a, depth, st); if f.Next? then Run(b, depth, f.st) else f)
  {
    if a == [] {
      assert a + b == b;
    } else {
      assert (a + b)[0] == a[0] && (a + b)[1..] == a[1..] + b;
      var f := Run([a[0]], depth, st);
      RunCons(a[0], a[1..], depth, st);
      RunCons(a[0], a[1..] + b, depth, st);
      assert a == [a[0]] + a[1..] && a + b == [a[0]] + (a[1..] + b);
      if f.Next? {
        RunAppend(a[1..], b, depth, f.st);
      }
    }
  }

  /** Executing a list is executing its head and then its tail. */
  lemma RunCons(s: Stmt, rest: seq<Stmt>, depth: nat, st: State)
    ensures Run([s] + rest, depth, st) == (var f := Run([s], depth, st); if f.Next? then Run(rest, depth, f.st) else f)
  {
    assert ([s] + rest)[1..] == rest && ([s] + rest)[0] == s;
    assert [s][1..] == [];
  }

  lemma ExecCons(p: Program, s: Stmt, rest: seq<Stmt>, depth: nat, st: State, fuel: nat)
    ensures Exec(p, [s] + rest, depth, st, fuel)
         == (var f := Exec(p, [s], depth, st, fuel); if f.Next? then Exec(p, rest, depth, f.st, fuel) else f)
  {
    assert ([s] + rest)[1..] == rest && ([s] + rest)[0] == s;
    assert [s][1..] == [];
  }

  lemma {:induction false} ExecAppend(p: Program, a: seq<Stmt>, b: seq<Stmt>, depth: nat, st: State, fuel: nat)
    ensures Exec(p, a + b, depth, st, fuel)
         == (var f := Exec(p, a, depth, st, fuel); if f.Next? then Exec(p, b, depth, f.st, fuel) else f)
    decreases |a|
  {
    if a == [] {
      assert a + b == b;
    } else {
      var f := Exec(p, [a[0]], depth, st, fuel);
      ExecCons(p, a[0], a[1..], depth, st, fuel);
      ExecCons(p, a[0], a[1..] + b, depth, st, fuel);
      assert a == [a[0]] + a[1..] && a + b == [a[0]] + (a[1..] + b);
      if f.Next? {
        ExecAppend(p, a[1..], b, depth, f.st, fuel);
      }
    }
  }

  /** Statements that make no calls mean the same whatever the program and the step count. */
  lemma {:induction false} CallFreeExec(p: Program, ss: seq<Stmt>, depth: nat, st: State, fuel: nat)
    requires CallFree(ss)
    ensures Exec(p, ss, depth, st, fuel) == Run(ss, depth, st)
    decreases ss
  {
    if ss != [] {
      if ss[0].If? {
        var r := Eval(ss[0].test, st.vars);
        if r.Ok? {
          if r.v.n != 0 {
            CallFreeExec(p, ss[0].thn, depth, st, fuel);
          } else {
            CallFreeExec(p, ss[0].els, depth, st, fuel);
          }
        }
      }
      RunCons(ss[0], ss[1..], depth, st);
      assert ss == [ss[0]] + ss[1..];
      var f := Run([ss[0]], depth, st);
      assert [ss[0]][1..] == [];
      if f.Next? {
        CallFreeExec(p, ss[1..], depth, f.st, fuel);
      }
    }
  }

  lemma {:induction false} CallFreeAppend(a: seq<Stmt>, b: seq<Stmt>)
    requires CallFree(a) && CallFree(b)
    ensures CallFree(a + b)
  {
    if a == [] {
      assert a + b == b;
    } else {
      assert (a + b)[0] == a[0] && (a + b)[1..] == a[1..] + b;
      CallFreeAppend(a[1..], b);
    }
  }

  // ---------- Failure is sticky ----------

  /** The arena has run out: allocation failed and said so. */
  predicate Exhausted(m: Memory) { m.failed && m.exhausted }

  /** A set flag stays set, and everything behind it is frozen. */
  predicate Poisoned(before: Memory, after: Memory) {
    before.failed ==>
      && after.failed
      && (before.exhausted ==> after.exhausted)
      && after.arena == before.arena
      && after.bump == before.bump
  }

  lemma StepPoisoned(s: Stmt, depth: nat, st: State)
    requires !s.If? && !s.Call?
    requires depth == 0 ==> !s.ResetAtTop?
    ensures Poisoned(st.mem, FlowMemory(Step(s, depth, st)))
  {
  }

  /** No `ResetAtTop` anywhere in the list. */
  predicate NoReset(ss: seq<Stmt>)
    decreases ss
  {
    ss == [] || (
      && !ss[0].ResetAtTop?
      && (ss[0].If? ==> NoReset(ss[0].thn) && NoReset(ss[0].els))
      && NoReset(ss[1..]))
  }

  lemma {:induction false} NoResetAppend(a: seq<Stmt>, b: seq<Stmt>)
    requires NoReset(a) && NoReset(b)
    ensures NoReset(a + b)
  {
    if a == [] {
      assert a + b == b;
    } else {
      assert (a + b)[0] == a[0] && (a + b)[1..] == a[1..] + b;
      NoResetAppend(a[1..], b);
    }
  }

  lemma {:induction false} RunPoisoned(ss: seq<Stmt>, depth: nat, st: State)
    requires depth > 0 || NoReset(ss)
    ensures Poisoned(st.mem, FlowMemory(Run(ss, depth, st)))
    decreases ss
  {
    if ss != [] {
      RunCons(ss[0], ss[1..], depth, st);
      assert ss == [ss[0]] + ss[1..];
      var f := Run([ss[0]], depth, st);
      assert [ss[0]][1..] == [];
      if ss[0].If? {
        var r := Eval(ss[0].test, st.vars);
        if r.Ok? {
          if r.v.n != 0 { RunPoisoned(ss[0].thn, depth, st); } else { RunPoisoned(ss[0].els, depth, st); }
        }
      } else if !ss[0].Call? {
        StepPoisoned(ss[0], depth, st);
      }
      if f.Next? {
        RunPoisoned(ss[1..], depth, f.st);
      }
    }
  }

  predicate CasesNoReset(cases: seq<seq<Stmt>>) { forall i | 0 <= i < |cases| :: NoReset(cases[i]) }

  predicate BodiesNoReset(p: Program) { forall n | n in p :: CasesNoReset(p[n].cases) }

  lemma {:induction false} TailNoReset(cases: seq<seq<Stmt>>, pc: int)
    requires CasesNoReset(cases)
    ensures NoReset(SwitchTail(cases, pc))
    decreases if 0 <= pc <= |cases| then |cases| - pc else 0
  {
    if 0 <= pc < |cases| {
      TailNoReset(cases, pc + 1);
      NoResetAppend(cases[pc], SwitchTail(cases, pc + 1));
    }
  }

  /** The depth counter stays inside a `uint64_t`, so it never returns to zero. */
  predicate DepthOk(depth: nat) { depth < TWO_64 - 1 }

  lemma {:induction false} ExecPoisoned(p: Program, ss: seq<Stmt>, depth: nat, st: State, fuel: nat)
    requires BodiesNoReset(p) && NoReset(ss) && DepthOk(depth)
    requires forall n | n in p :: GuardsDepth(p[n])
    ensures Poisoned(st.mem, FlowMemory(Exec(p, ss, depth, st, fuel)))
    decreases fuel, 3, ss
  {
    if ss != [] {
      ExecCons(p, ss[0], ss[1..], depth, st, fuel);
      assert ss == [ss[0]] + ss[1..];
      var f := Exec(p, [ss[0]], depth, st, fuel);
      assert [ss[0]][1..] == [];
      if ss[0].If? {
        var r := Eval(ss[0].test, st.vars);
        if r.Ok? {
          if r.v.n != 0 { ExecPoisoned(p, ss[0].thn, depth, st, fuel); } else { ExecPoisoned(p, ss[0].els, depth, st, fuel); }
        }
      } else if ss[0].Call? {
        var vals := EvalArgs(ss[0].args, st.vars);
        if vals.0 && ss[0].callee in p {
          assert (depth + 1) % TWO_64 == depth + 1;
          ActivatePoisoned(p, ss[0].callee, vals.1, depth + 1, st.mem, fuel);
        }
      } else {
        StepPoisoned(ss[0], depth, st);
      }
      if f.Next? {
        ExecPoisoned(p, ss[1..], depth, f.st, fuel);
      }
    }
  }

  /** The prologue refuses every depth above a limit that leaves room to count. */
  predicate GuardsDepth(f: Function) {
    && |f.prologue| > 0
    && f.prologue[0].DepthGuard?
    && f.prologue[0].limit < TWO_64 - 1
  }

  /** A nested activation never clears the flags its caller saw. */
  lemma {:induction false} ActivatePoisoned(p: Program, callee: string, args: seq<int>, depth: nat, m: Memory, fuel: nat)
    requires BodiesNoReset(p) && callee in p && depth > 0
    requires forall n | n in p :: GuardsDepth(p[n])
    ensures Poisoned(m, FlowMemory(Activate(p, p[callee], args, depth, m, fuel)))
    decreases fuel, 1
  {
    var f := p[callee];
    if |args| == |f.params| {
      var st := State(Locals(DeclTypes(f.params + f.decls), BindParams(f.params, args)), m);
      RunPoisoned(f.prologue, depth, st);
      var entered := Run(f.prologue, depth, st);
      if entered.Next? {
        PrologueDepth(f, depth, st);
        LoopPoisoned(p, f, 0, depth, entered.st, fuel);
      }
    }
  }

  lemma PrologueDepth(f: Function, depth: nat, st: State)
    requires GuardsDepth(f) && Run(f.prologue, depth, st).Next?
    ensures DepthOk(depth)
  {
    RunCons(f.prologue[0], f.prologue[1..], depth, st);
    assert f.prologue == [f.prologue[0]] + f.prologue[1..];
    assert [f.prologue[0]][1..] == [];
  }

  lemma {:induction false} LoopPoisoned(p: Program, f: Function, pc: int, depth: nat, st: State, fuel: nat)
    requires BodiesNoReset(p) && CasesNoReset(f.cases) && DepthOk(depth)
    requires forall n | n in p :: GuardsDepth(p[n])
    ensures Poisoned(st.mem, FlowMemory(Loop(p, f, pc, depth, st, fuel)))
    decreases fuel, 0
  {
    if fuel > 0 {
      TailNoReset(f.cases, pc);
      var body := Exec(p, SwitchTail(f.cases, pc), depth, st, fuel - 1);
      ExecPoisoned(p, SwitchTail(f.cases, pc), depth, st, fuel - 1);
      if body.Jump? {
        LoopPoisoned(p, f, body.pc, depth, body.st, fuel - 1);
      } else if body.Next? {
        LoopPoisoned(p, f, pc, depth, body.st, fuel - 1);
      }
    }
  }
}
