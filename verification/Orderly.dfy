/** The shape of all emitted code, and what it means for every run from every
    state, well-formed program or not: the program counter stays in range, no
    poisoned value escapes, and a module without cells leaves the arena alone. */
module Orderly {
  import opened Words
  import opened Mncs
  import opened Emit
  import opened Discipline
  import opened Poison
  import IntegerLowering
  import Simulation
  import C = CLang
  import opened Execution

  // ---------- Shape ----------

  /** A statement that needs no neighbour: jumps stay below `n`, exits carry a
      failure status unless there is no arena, and only arena code touches it. */
  predicate Sound(s: C.Stmt, n: nat, heap: bool)
    decreases s, 0
  {
    match s
    case Declare(_, _, _) => true
    case Assign(_, _) => true
    case If(_, thn, els) => InOrder(thn, n, heap) && InOrder(els, n, heap)
    case Leave(code) => code == 1
    case Alloc(_, _) => heap
    case Load(_, _, _, _) => heap
    case Store(_, _, _) => heap
    case CopySlot(_, _, _) => heap
    case ReturnValue(_) => !heap
    case Goto(pc) => 0 <= pc < n
    case ReturnIfStatus => true
    case TakeValue(_, _) => true
    case _ => false
  }

  /** A call is followed by its status check, and a value is returned only right
      after the failure check. */
  predicate InOrder(ss: seq<C.Stmt>, n: nat, heap: bool)
    decreases ss, 1
  {
    if ss == [] then true
    else if ss[0].Call? then |ss| > 1 && ss[1].ReturnIfStatus? && InOrder(ss[1..], n, heap)
    else if ss[0].LeaveIfFailed? then |ss| > 1 && ss[1].ReturnValue? && InOrder(ss[2..], n, heap)
    else Sound(ss[0], n, heap) && InOrder(ss[1..], n, heap)
  }

  lemma {:induction false} InOrderAppend(a: seq<C.Stmt>, b: seq<C.Stmt>, n: nat, heap: bool)
    requires InOrder(a, n, heap) && InOrder(b, n, heap)
    ensures InOrder(a + b, n, heap)
    decreases |a|
  {
    if a == [] {
      assert a + b == b;
    } else {
      assert (a + b)[0] == a[0] && (a + b)[1..] == a[1..] + b;
      if a[0].LeaveIfFailed? {
        assert (a + b)[2..] == a[2..] + b && (a + b)[1] == a[1];
        InOrderAppend(a[2..], b, n, heap);
      } else {
        InOrderAppend(a[1..], b, n, heap);
      }
    }
  }

  lemma {:induction false} TameInOrder(ss: seq<C.Stmt>, d: string, n: nat)
    requires Tame(ss, d)
    ensures InOrder(ss, n, true)
    decreases ss
  {
    if ss != [] {
      if ss[0].If? {
        TameInOrder(ss[0].thn, d, n);
        TameInOrder(ss[0].els, d, n);
      }
      TameInOrder(ss[1..], d, n);
    }
  }

  lemma {:induction false} AllSound(ss: seq<C.Stmt>, n: nat, heap: bool)
    requires forall i | 0 <= i < |ss| :: Sound(ss[i], n, heap)
    ensures InOrder(ss, n, heap)
  {
    if ss != [] {
      AllSound(ss[1..], n, heap);
    }
  }

  lemma IntegerInOrder(d: string, ty: Ty, op: IntOp, intent: Intent, permitted: bool, l: string, r: string, n: nat)
    requires ty.TInt?
    ensures InOrder(IntegerCode(d, ty, op, intent, permitted, l, r), n, false)
  {
    var code := IntegerCode(d, ty, op, intent, permitted, l, r);
    forall i | 0 <= i < |code|
      ensures Sound(code[i], n, false)
    {
      if code[i].If? {
        AllSound(code[i].thn, n, false);
        AllSound(code[i].els, n, false);
      }
    }
    AllSound(code, n, false);
  }

  lemma GuardedInOrder(names: Names, inst: Inst, n: nat)
    requires inst.ViewConstruct? || inst.ViewNarrow? || inst.BoundCheck?
    ensures InOrder(InstCode(names, inst), n, false)
  {
    var code := InstCode(names, inst);
    forall i | 0 <= i < |code|
      ensures Sound(code[i], n, false)
    {
      if code[i].If? {
        AllSound(code[i].thn, n, false);
        AllSound(code[i].els, n, false);
      }
    }
    AllSound(code, n, false);
  }

  lemma CallInOrder(names: Names, inst: Inst, n: nat, heap: bool)
    requires inst.Call?
    ensures InOrder(InstCode(names, inst), n, heap)
  {
    var code := InstCode(names, inst);
    AllSound(code[1..], n, heap);
  }

  lemma HeaplessInOrder(names: Names, inst: Inst, n: nat)
    requires !inst.Group? && !UsesCells(inst) && !inst.Call?
    ensures InOrder(InstCode(names, inst), n, false)
  {
    match inst
    case Integer(dest, op, intent, permitted, l, r) =>
      if dest.ty.TInt? {
        IntegerInOrder(NameOf(names, dest.id), dest.ty, op, intent, permitted, NameOf(names, l), NameOf(names, r), n);
      }
    case ViewConstruct(_, _, _, _, _, _) => GuardedInOrder(names, inst, n);
    case ViewNarrow(_, _, _) => GuardedInOrder(names, inst, n);
    case BoundCheck(_, _, _, _) => GuardedInOrder(names, inst, n);
    case _ => AllSound(InstCode(names, inst), n, false);
  }

  lemma InstInOrder(names: Names, inst: Inst, n: nat, heap: bool)
    requires !inst.Group? && (heap || !UsesCells(inst))
    ensures InOrder(InstCode(names, inst), n, heap)
  {
    hide InstCode, UsesCells;
    if inst.Call? {
      CallInOrder(names, inst, n, heap);
    } else if heap {
      InstTame(names, inst);
      TameInOrder(InstCode(names, inst), TargetOf(names, inst), n);
    } else {
      HeaplessInOrder(names, inst, n);
    }
  }

  lemma {:induction false} InstsInOrder(names: Names, insts: seq<Inst>, n: nat, heap: bool)
    requires forall i | i in insts :: !i.Group? && (heap || !UsesCells(i))
    ensures InOrder(InstsCode(names, insts), n, heap)
  {
    if insts != [] {
      hide InstCode, UsesCells;
      InstInOrder(names, insts[0], n, heap);
      InstsInOrder(names, insts[1..], n, heap);
      InOrderAppend(InstCode(names, insts[0]), InstsCode(names, insts[1..]), n, heap);
    }
  }

  lemma {:induction false} MovesInOrder(names: Names, params: seq<Val>, args: seq<Id>, n: nat, heap: bool)
    ensures InOrder(TransferCode(names, params, args), n, heap)
    decreases |params|
  {
    if params != [] && args != [] {
      MovesInOrder(names, params[1..], args[1..], n, heap);
      var move := if params[0].id != args[0] then [C.Assign(NameOf(names, params[0].id), C.Var(NameOf(names, args[0])))] else [];
      AllSound(move, n, heap);
      InOrderAppend(move, TransferCode(names, params[1..], args[1..]), n, heap);
    }
  }

  lemma {:induction false} FoundInRange(bs: seq<Block>, id: Id)
    ensures FindBlock(bs, id).Some? ==> FindBlock(bs, id).value < |bs|
  {
    if bs != [] && bs[0].id != id {
      FoundInRange(bs[1..], id);
    }
  }

  lemma JumpInOrder(names: Names, blocks: seq<Block>, target: Id, args: seq<Id>, heap: bool)
    requires blocks != []
    ensures InOrder(JumpCode(names, blocks, target, args), |blocks|, heap)
  {
    hide TransferCode;
    var k := FindBlock(blocks, target);
    FoundInRange(blocks, target);
    var moves := if k.Some? then TransferCode(names, blocks[k.value].params, args) else [];
    if k.Some? {
      MovesInOrder(names, blocks[k.value].params, args, |blocks|, heap);
    }
    var last := [C.Goto(if k.Some? then k.value else 0)];
    AllSound(last, |blocks|, heap);
    InOrderAppend(moves, last, |blocks|, heap);
  }

  lemma TermInOrder(names: Names, f: Function, term: Term, heap: bool)
    requires f.blocks != []
    ensures InOrder(TermCode(names, f, term, heap), |f.blocks|, heap)
  {
    hide JumpCode;
    match term
    case Return(v) =>
      var back := C.ReturnValue(C.Var(NameOf(names, v)));
      if heap {
        assert [C.LeaveIfFailed, back][2..] == [];
        assert TermCode(names, f, term, heap) == [C.LeaveIfFailed, back];
      } else {
        assert TermCode(names, f, term, heap) == [back];
        AllSound([back], |f.blocks|, heap);
      }
    case Jump(t, args) => JumpInOrder(names, f.blocks, t, args, heap);
    case Branch(_, t, targs, e, eargs) =>
      JumpInOrder(names, f.blocks, t, targs, heap);
      JumpInOrder(names, f.blocks, e, eargs, heap);
      AllSound(TermCode(names, f, term, heap), |f.blocks|, heap);
    case Fail => AllSound([C.Leave(1)], |f.blocks|, heap);
  }

  /** A block of a module: heapless exactly when no function uses cells. */
  predicate BlockHeap(b: Block, heap: bool) {
    heap || forall i | i in Flatten(LowerAll(b.insts)) :: !UsesCells(i)
  }

  lemma BlockInOrder(names: Names, f: Function, b: Block, heap: bool)
    requires f.blocks != [] && BlockHeap(b, heap)
    ensures InOrder(BlockCode(names, f, b, heap), |f.blocks|, heap)
  {
    hide InstsCode, TermCode;
    var insts := Flatten(LowerAll(b.insts));
    FlattenPlain(LowerAll(b.insts));
    InstsInOrder(names, insts, |f.blocks|, heap);
    TermInOrder(names, f, b.term, heap);
    InOrderAppend(InstsCode(names, insts), TermCode(names, f, b.term, heap), |f.blocks|, heap);
  }

  predicate CasesInOrder(f: C.Function, heap: bool) {
    forall k | 0 <= k < |f.cases| :: InOrder(f.cases[k], |f.cases|, heap)
  }

  ghost predicate ProgramInOrder(p: C.Program, heap: bool) { forall n | n in p :: CasesInOrder(p[n], heap) }

  lemma ModuleInOrder(m: Module)
    ensures ProgramInOrder(ModuleCode(m), NeedsArena(m))
  {
    hide FunctionCode, BlockCode;
    var heap := NeedsArena(m);
    forall n, k | n in m && 0 <= k < |ModuleCode(m)[n].cases|
      ensures InOrder(ModuleCode(m)[n].cases[k], |ModuleCode(m)[n].cases|, heap)
    {
      FunctionShape(m[n], heap);
      BlockInOrder(NamesOf(m[n]), m[n], m[n].blocks[k], heap);
    }
  }

  // ---------- The program counter ----------

  lemma JumpNeverNext(names: Names, blocks: seq<Block>, target: Id, args: seq<Id>, depth: nat, st: C.State)
    ensures !C.Run(JumpCode(names, blocks, target, args), depth, st).Next?
  {
    hide C.Run, TransferCode;
    var k := FindBlock(blocks, target);
    var moves := if k.Some? && k.value < |blocks| then TransferCode(names, blocks[k.value].params, args) else [];
    var go := C.Goto(if k.Some? then k.value else 0);
    RunAppend(moves, [go], depth, st);
    var f := C.Run(moves, depth, st);
    if f.Next? {
      IntegerLowering.RunOne(go, depth, f.st);
    }
  }

  lemma TermNeverNext(names: Names, f: Function, term: Term, hasArena: bool, depth: nat, st: C.State)
    ensures !C.Run(TermCode(names, f, term, hasArena), depth, st).Next?
  {
    hide C.Run, C.Eval, JumpCode;
    match term
    case Return(v) =>
      var back := C.ReturnValue(C.Var(NameOf(names, v)));
      IntegerLowering.RunOne(back, depth, st);
      IntegerLowering.RunOne(C.LeaveIfFailed, depth, st);
      RunCons(C.LeaveIfFailed, [back], depth, st);
      assert [] + [back] == [back];
    case Jump(t, args) => JumpNeverNext(names, f.blocks, t, args, depth, st);
    case Branch(c, t, targs, e, eargs) =>
      JumpNeverNext(names, f.blocks, t, targs, depth, st);
      JumpNeverNext(names, f.blocks, e, eargs, depth, st);
      var pick := C.If(C.Var(NameOf(names, c)), JumpCode(names, f.blocks, t, targs), JumpCode(names, f.blocks, e, eargs));
      IntegerLowering.RunOne(pick, depth, st);
      if C.Eval(pick.test, st.vars).Undef? {
        TestUndefined(pick, depth, st);
      }
    case Fail => IntegerLowering.RunOne(C.Leave(1), depth, st);
  }

  lemma {:induction false} JumpsInRange(p: C.Program, ss: seq<C.Stmt>, n: nat, heap: bool, depth: nat, st: C.State, fuel: nat)
    requires InOrder(ss, n, heap)
    ensures C.Exec(p, ss, depth, st, fuel).Jump? ==> 0 <= C.Exec(p, ss, depth, st, fuel).pc < n
    decreases ss
  {
    if ss != [] {
      hide C.Eval, C.Activate, C.EvalArgs;
      ExecCons(p, ss[0], ss[1..], depth, st, fuel);
      assert ss == [ss[0]] + ss[1..] && [ss[0]][1..] == [];
      var f := C.Exec(p, [ss[0]], depth, st, fuel);
      if ss[0].If? {
        var r := C.Eval(ss[0].test, st.vars);
        if r.Ok? {
          if r.v.n != 0 { JumpsInRange(p, ss[0].thn, n, heap, depth, st, fuel); } else { JumpsInRange(p, ss[0].els, n, heap, depth, st, fuel); }
        }
      } else if ss[0].Call? {
        CallNeverJumps(p, ss[0], depth, st, fuel);
      }
      if f.Next? {
        if ss[0].LeaveIfFailed? {
          ExecCons(p, ss[1], ss[2..], depth, f.st, fuel);
          assert ss[1..] == [ss[1]] + ss[2..] && [ss[1]][1..] == [];
        } else {
          JumpsInRange(p, ss[1..], n, heap, depth, f.st, fuel);
        }
      }
    }
  }

  lemma CallNeverJumps(p: C.Program, s: C.Stmt, depth: nat, st: C.State, fuel: nat)
    requires s.Call?
    ensures !C.Exec(p, [s], depth, st, fuel).Jump?
  {
    hide C.Activate, C.EvalArgs;
    assert [s][1..] == [];
    Simulation.ExecOneCall(p, s, depth, st, fuel);
    var vals := C.EvalArgs(s.args, st.vars);
    if vals.0 && s.callee in p {
      Simulation.ActivateEnds(p, p[s.callee], vals.1, (depth + 1) % TWO_64, st.mem, fuel);
    }
  }
}
