/** The main results: what a compiled entry reports is what the reference
    executor returns. */
module Refinement {
  import opened Words
  import opened Mncs
  import opened Emit
  import opened Represent
  import opened Interpreter
  import opened Validation
  import opened Blocks
  import opened Entry
  import opened Exactness
  import opened Simulation
  import opened Runs
  import C = CLang
  import opened Execution

  predicate Succeeds(f: C.Flow) { f.Exit? && f.mem.status == 0 }

  /** The outcome and the way the activation ends determine each other. */
  ghost predicate Corresponds(o: Outcome, ty: Ty, flow: C.Flow) {
    && !flow.Wrong?
    && (o.Returned? <==> Succeeds(flow))
    && (o.Returned? ==> Delivers(o.v, ty, flow.mem))
    && (o == Failed <==> flow.Exit? && flow.mem.status == 1)
    && (o == DepthExhausted <==> flow.Exit? && flow.mem.status == 3)
    && (o == Running <==> flow.Spent?)
  }

  /** A request: an entry of a valid module, arguments laid out in memory, a call
      depth budget. A flag left by an earlier request is harmless at full budget. */
  ghost predicate Request(m: Module, n: string, args: seq<Value>, cells: seq<int>, budget: nat, mem: C.Memory) {
    && ModuleOk(m) && n in m && budget <= MAX_CALL_DEPTH
    && Valid(mem) && (mem.failed ==> budget == MAX_CALL_DEPTH && NeedsArena(m))
    && ArgsRep(args, m[n].params, cells, mem)
  }

  function Compiled(m: Module, n: string, cells: seq<int>, budget: nat, mem: C.Memory, fuel: nat): C.Flow
    requires n in m && budget <= MAX_CALL_DEPTH
  {
    C.Activate(ModuleCode(m), CodeOf(m, n), cells, MAX_CALL_DEPTH - budget, mem, fuel)
  }

  /** For every entry, input and step count, a run inside the envelope exhausts the
      arena exactly when the sequences it builds need more than is left. Otherwise
      both sides have the same outcome, and exactly what was needed is allocated. */
  lemma GeneratedRefines(m: Module, n: string, args: seq<Value>, cells: seq<int>, budget: nat, mem: C.Memory, fuel: nat)
    requires Request(m, n, args, cells, budget, mem)
    ensures var r, flow := RunFunction(m, m[n], args, 0, budget, fuel), Compiled(m, n, cells, budget, mem, fuel);
            r.exact ==>
              && (Exhausted(C.FlowMemory(flow)) <==> Overruns(mem, r.used))
              && (!Overruns(mem, r.used) ==> Corresponds(r.outcome, m[n].result, flow) && Took(mem, C.FlowMemory(flow), r.used))
  {
    hide C.Activate, RunFunction, NeedsArena, ModuleCode, FunctionCode, ModuleOk, ArgsRep, Extends, Delivers, Overruns, Took;
    SimFunction(m, n, args, cells, 0, MAX_CALL_DEPTH - budget, budget, mem, fuel);
    Zero(m, m[n].result, RunFunction(m, m[n], args, 0, budget, fuel), mem, Compiled(m, n, cells, budget, mem, fuel));
  }

  lemma Zero(m: Module, ty: Ty, r: Result, mem: C.Memory, flow: C.Flow)
    requires Agrees(r, ty, mem, flow)
    ensures r.exact && !Overruns(mem, r.used) ==> Corresponds(r.outcome, ty, flow)
  {
    hide Extends, Rep;
  }

  /** No observation of the flags is needed for success: status zero means the
      reference executor returned, and returned that value. */
  lemma SuccessIsTrue(m: Module, n: string, args: seq<Value>, cells: seq<int>, budget: nat, mem: C.Memory, fuel: nat)
    requires Request(m, n, args, cells, budget, mem)
    requires RunFunction(m, m[n], args, 0, budget, fuel).exact && Succeeds(Compiled(m, n, cells, budget, mem, fuel))
    ensures var o := RunFunction(m, m[n], args, 0, budget, fuel).outcome;
            o.Returned? && Delivers(o.v, m[n].result, Compiled(m, n, cells, budget, mem, fuel).mem)
  {
    hide C.Activate, RunFunction, NeedsArena, ModuleCode, FunctionCode, ModuleOk, ArgsRep, Delivers;
    GeneratedRefines(m, n, args, cells, budget, mem, fuel);
    if NeedsArena(m) {
      NoPoisonEscapes(m, n, cells, MAX_CALL_DEPTH - budget, mem, fuel);
    } else {
      NeverExhausted(m, n, cells, budget, mem, fuel);
    }
  }

  lemma NeverExhausted(m: Module, n: string, cells: seq<int>, budget: nat, mem: C.Memory, fuel: nat)
    requires n in m && budget <= MAX_CALL_DEPTH && !NeedsArena(m) && !mem.failed
    ensures !Exhausted(C.FlowMemory(Compiled(m, n, cells, budget, mem, fuel)))
  {
    hide C.Activate, NeedsArena, ModuleCode, FunctionCode, Uniform;
    ModuleUniform(m);
    SameCode(m, n);
    ActivateHeapless(ModuleCode(m), n, cells, MAX_CALL_DEPTH - budget, mem, fuel);
  }

  /** Represented arguments have their parameters' types. */
  lemma {:induction false} RepTyped(v: Value, ty: Ty, c: int, m: C.Memory)
    requires Rep(v, ty, c, m)
    ensures HasType(v, ty)
    decreases v
  {
    match ty
    case TSeq(e, _) =>
      forall i | 0 <= i < |v.elems|
        ensures HasType(v.elems[i], e)
      {
        RepTyped(v.elems[i], e, SlotCell(m, e, c + 8 * i), m);
      }
    case TView(e, _) =>
      forall i | 0 <= i < |v.elems|
        ensures HasType(v.elems[i], e)
      {
        RepTyped(v.elems[i], e, SlotCell(m, e, c % TWO_32 + 8 * i), m);
      }
    case _ =>
  }

  /** A module built from faithful instructions needs no envelope. The one way to
      differ is to build more than the arena has room for; that run reports no
      success, and a module without cells has no such run. */
  lemma FaithfulRefines(m: Module, n: string, args: seq<Value>, cells: seq<int>, budget: nat, mem: C.Memory, fuel: nat)
    requires Request(m, n, args, cells, budget, mem) && FaithfulModule(m)
    ensures var r, flow := RunFunction(m, m[n], args, 0, budget, fuel), Compiled(m, n, cells, budget, mem, fuel);
            && r.outcome != Invalid
            && (r.outcome.Returned? ==> HasType(r.outcome.v, m[n].result))
            && (Exhausted(C.FlowMemory(flow)) <==> Overruns(mem, r.used))
            && (!Overruns(mem, r.used) ==> Corresponds(r.outcome, m[n].result, flow) && Took(mem, C.FlowMemory(flow), r.used))
            && (Overruns(mem, r.used) ==> NeedsArena(m) && !Succeeds(flow))
  {
    hide C.Activate, RunFunction, NeedsArena, ModuleCode, FunctionCode, FaithfulModule, Rep, HasType, Compiled, Delivers, ModuleOk, Overruns, Took;
    forall i | 0 <= i < |args|
      ensures HasType(args[i], m[n].params[i].ty)
    {
      RepTyped(args[i], m[n].params[i].ty, cells[i], mem);
    }
    GoodFunction(m, n, args, 0, budget, fuel, true);
    GeneratedRefines(m, n, args, cells, budget, mem, fuel);
    var flow := Compiled(m, n, cells, budget, mem, fuel);
    if !NeedsArena(m) {
      NeverExhausted(m, n, cells, budget, mem, fuel);
    }
    if Succeeds(flow) {
      SuccessHealthy(m, n, args, cells, budget, mem, fuel);
    }
  }

  lemma SuccessHealthy(m: Module, n: string, args: seq<Value>, cells: seq<int>, budget: nat, mem: C.Memory, fuel: nat)
    requires Request(m, n, args, cells, budget, mem) && Succeeds(Compiled(m, n, cells, budget, mem, fuel))
    ensures !Exhausted(C.FlowMemory(Compiled(m, n, cells, budget, mem, fuel)))
  {
    hide C.Activate, NeedsArena, ModuleCode, FunctionCode, ModuleOk, ArgsRep;
    if NeedsArena(m) {
      NoPoisonEscapes(m, n, cells, MAX_CALL_DEPTH - budget, mem, fuel);
    } else {
      NeverExhausted(m, n, cells, budget, mem, fuel);
    }
  }
}
