/** What the statements of one instruction may touch: each flattened instruction
    assigns its own destination's variable only, leaves the activation only with
    a failure status, and never clears the failure flag. */
module Discipline {
  import opened Mncs
  import opened Emit
  import opened Naming
  import opened IntegerLowering
  import opened Execution
  import C = CLang

  predicate Writes(x: string, d: string) { x == d || !IsValueName(x) }

  /** Straight-line code that writes `d` and temporaries only. */
  predicate Tame(ss: seq<C.Stmt>, d: string)
    decreases ss
  {
    ss == [] || (TameStmt(ss[0], d) && Tame(ss[1..], d))
  }

  predicate TameStmt(s: C.Stmt, d: string)
    decreases s
  {
    match s
    case Declare(_, x, _) => !IsValueName(x)
    case Assign(x, _) => Writes(x, d)
    case Alloc(x, _) => Writes(x, d)
    case Load(x, _, _, _) => Writes(x, d)
    case Store(_, _, _) => true
    case CopySlot(_, _, _) => true
    case If(_, thn, els) => Tame(thn, d) && Tame(els, d)
    case Leave(code) => code == 1
    case _ => false
  }

  lemma {:induction false} TameAppend(a: seq<C.Stmt>, b: seq<C.Stmt>, d: string)
    requires Tame(a, d) && Tame(b, d)
    ensures Tame(a + b, d)
  {
    if a == [] {
      assert a + b == b;
    } else {
      assert (a + b)[0] == a[0] && (a + b)[1..] == a[1..] + b;
      TameAppend(a[1..], b, d);
    }
  }

  lemma {:induction false} TameLanes(d: string, s: string, w: SlotWidth, from: nat, length: nat)
    requires from <= length
    ensures Tame(CopyLanes(d, s, w, from, length), d)
    decreases length - from
  {
    if from < length {
      TameLanes(d, s, w, from + 1, length);
    }
  }

  lemma {:induction false} TameSpans(d: string, into: string, at: string, base: C.Expr, start: string, n: string, w: SlotWidth, from: nat, length: nat)
    requires from <= length
    ensures Tame(SpanLanes(d, into, at, base, start, n, w, from, length), d)
    decreases length - from
  {
    if from < length {
      TameSpans(d, into, at, base, start, n, w, from + 1, length);
      TameSpan(d, into, at, base, start, n, w, from);
      TameAppend(SpanLane(d, into, at, base, start, n, w, from), SpanLanes(d, into, at, base, start, n, w, from + 1, length), d);
    }
  }

  lemma TameFew(ss: seq<C.Stmt>, d: string)
    requires |ss| <= 8 && forall i | 0 <= i < |ss| :: TameStmt(ss[i], d)
    ensures Tame(ss, d)
  {
    if ss != [] {
      TameFew(ss[1..], d);
    }
  }

  lemma TameSpan(d: string, into: string, at: string, base: C.Expr, start: string, n: string, w: SlotWidth, lane: nat)
    ensures Tame(SpanLane(d, into, at, base, start, n, w, lane), d)
  {
    TameFew(SpanLane(d, into, at, base, start, n, w, lane), d);
  }

  lemma TameReplace(d: string, s: string, index: string, x: string, length: nat, w: SlotWidth, evidence: Evidence)
    ensures Tame(ReplaceCode(d, s, index, x, length, w, evidence), d)
  {
    var guard := if evidence.RuntimeChecked? then [IndexGuard(index, NumULL(length))] else [];
    var alloc, lanes := [C.Alloc(d, NumU(length * 8))], CopyLanes(d, s, w, 0, length);
    var last := [C.Store(CWidth(w), SlotAddress(C.Var(d), index), C.Cast(C.SlotType(CWidth(w)), C.Var(x)))];
    TameTrap(C.Bin(C.Ge, AsU64(index), NumULL(length)), d);
    TameFew(guard, d);
    TameFew(alloc, d);
    TameFew(last, d);
    TameLanes(d, s, w, 0, length);
    TameAppend(guard, alloc, d);
    TameAppend(guard + alloc, lanes, d);
    TameAppend(guard + alloc + lanes, last, d);
  }

  lemma TameTrap(test: C.Expr, d: string)
    ensures TameStmt(TrapIf(test), d)
  {
    TameFew([C.Leave(1)], d);
  }

  lemma TameCopy(d: string, into: string, at: string, s: string, start: string, n: string,
                 srcBound: Bound, evidence: Evidence, dstLength: nat, w: SlotWidth)
    ensures Tame(CopyCode(d, into, at, s, start, n, srcBound, evidence, dstLength, w), d)
  {
    var guard := if evidence.RuntimeChecked? then CopyGuard(at, start, n, dstLength, LengthOf(s, srcBound)) else [];
    var alloc := [C.Alloc(d, NumU(dstLength * 8))];
    var lanes := SpanLanes(d, into, at, BaseOf(s, srcBound), start, n, w, 0, dstLength);
    if evidence.RuntimeChecked? {
      TameTrap(guard[2].test, d);
    }
    TameFew(guard, d);
    TameFew(alloc, d);
    TameSpans(d, into, at, BaseOf(s, srcBound), start, n, w, 0, dstLength);
    TameAppend(guard, alloc, d);
    TameAppend(guard + alloc, lanes, d);
  }

  lemma TameInteger(d: string, ty: Ty, op: IntOp, intent: Intent, permitted: bool, l: string, r: string)
    requires ty.TInt?
    ensures Tame(IntegerCode(d, ty, op, intent, permitted, l, r), d)
  {
    var code := IntegerCode(d, ty, op, intent, permitted, l, r);
    forall i | 0 <= i < |code|
      ensures TameStmt(code[i], d)
    {
      if code[i].If? {
        TameFew(code[i].thn, d);
        TameFew(code[i].els, d);
      }
    }
    TameFew(code, d);
  }

  /** The variable that a flattened instruction writes; a store writes none. */
  function TargetOf(names: Names, inst: Inst): string {
    if Dest(inst).Some? then NameOf(names, inst.dest.id) else ""
  }

  /** Every flattened instruction other than a call is tame for its own destination. */
  lemma InstTame(names: Names, inst: Inst)
    requires !inst.Call? && !inst.Group?
    ensures Tame(InstCode(names, inst), TargetOf(names, inst))
  {
    var d := TargetOf(names, inst);
    match inst
    case Integer(dest, op, intent, permitted, l, r) =>
      if dest.ty.TInt? {
        TameInteger(d, dest.ty, op, intent, permitted, NameOf(names, l), NameOf(names, r));
      }
    case SequenceReplace(_, s, i, x, n, w, evidence) =>
      TameReplace(d, NameOf(names, s), NameOf(names, i), NameOf(names, x), n, w, evidence);
    case SequenceCopy(_, into, at, s, start, n, srcBound, evidence, dstLength, w) =>
      TameCopy(d, NameOf(names, into), NameOf(names, at), NameOf(names, s), NameOf(names, start), NameOf(names, n), srcBound, evidence, dstLength, w);
    case SequenceProject(_, _, _, _, _, _) => TameShort(names, inst, d);
    case ViewConstruct(_, _, _, _, _, _) => TameShort(names, inst, d);
    case ViewNarrow(_, _, _) => TameShort(names, inst, d);
    case BoundCheck(_, _, _, _) => TameShort(names, inst, d);
    case _ => TameFew(InstCode(names, inst), d);
  }

  lemma TameShort(names: Names, inst: Inst, d: string)
    requires inst.SequenceProject? || inst.ViewConstruct? || inst.ViewNarrow? || inst.BoundCheck?
    requires d == TargetOf(names, inst)
    ensures Tame(InstCode(names, inst), d)
  {
    var code := InstCode(names, inst);
    forall i | 0 <= i < |code|
      ensures TameStmt(code[i], d)
    {
      if code[i].If? {
        TameFew(code[i].thn, d);
        TameFew(code[i].els, d);
      }
    }
    TameFew(code, d);
  }

  // ---------- What tame code does ----------

  lemma {:induction false} TameShape(ss: seq<C.Stmt>, d: string)
    requires Tame(ss, d)
    ensures C.CallFree(ss) && NoReset(ss)
    decreases ss
  {
    if ss != [] {
      if ss[0].If? {
        TameShape(ss[0].thn, d);
        TameShape(ss[0].els, d);
      }
      TameShape(ss[1..], d);
    }
  }

  /** However tame code ends, the other value variables are as they were, a
      failure flag is still set, and an exit carries a failure status. */
  ghost predicate Behaves(st: C.State, f: C.Flow, d: string) {
    && (f.Next? ==> SameElsewhere(st.vars, f.st.vars, d))
    && (f.Exit? ==> f.mem.status != 0)
    && !f.Jump? && !f.Spent?
    && Poisoned(st.mem, C.FlowMemory(f))
  }

  lemma {:induction false} TameRun(ss: seq<C.Stmt>, d: string, depth: nat, st: C.State)
    requires Tame(ss, d)
    ensures Behaves(st, C.Run(ss, depth, st), d)
    decreases ss
  {
    if ss != [] {
      hide C.Eval;
      RunCons(ss[0], ss[1..], depth, st);
      assert ss == [ss[0]] + ss[1..];
      var f := C.Run([ss[0]], depth, st);
      RunOne(ss[0], depth, st);
      if ss[0].If? {
        var r := C.Eval(ss[0].test, st.vars);
        if r.Ok? {
          if r.v.n != 0 { TameRun(ss[0].thn, d, depth, st); } else { TameRun(ss[0].els, d, depth, st); }
        } else {
          TestUndefined(ss[0], depth, st);
        }
      } else {
        TameStep(ss[0], d, depth, st);
      }
      if f.Next? {
        TameRun(ss[1..], d, depth, f.st);
      }
    }
  }

  lemma TestUndefined(s: C.Stmt, depth: nat, st: C.State)
    requires s.If? && C.Eval(s.test, st.vars).Undef?
    ensures C.Run([s], depth, st) == C.Wrong(st.mem)
  {
  }

  lemma TameStep(s: C.Stmt, d: string, depth: nat, st: C.State)
    requires !s.If? && TameStmt(s, d)
    ensures Behaves(st, C.Step(s, depth, st), d)
  {
    hide C.Eval;
    StepPoisoned(s, depth, st);
  }

  /** One instruction, from any state at all: only its own variable changes. */
  lemma InstBehaves(names: Names, inst: Inst, depth: nat, st: C.State)
    requires !inst.Call? && !inst.Group?
    ensures Behaves(st, C.Run(InstCode(names, inst), depth, st), TargetOf(names, inst))
  {
    InstTame(names, inst);
    TameRun(InstCode(names, inst), TargetOf(names, inst), depth, st);
  }
}
