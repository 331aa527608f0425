/** A function that builds a one-element sequence in an endless loop: a faithful
    module with cells, and exactly when its compiled runs exhaust the arena. */
module Exhaustion {
  import opened Options
  import opened Mncs
  import opened Emit
  import opened Naming
  import opened Envelope
  import opened Represent
  import opened Interpreter
  import opened Validation
  import opened Exactness
  import opened Entry
  import opened Execution
  import opened Refinement
  import opened Witness
  import Emitter
  import C = CLang

  const CELL: Ty := TSeq(WORD, 1)

  function StartBlock(): Block { Block("start", [], [], Jump("loop", [])) }

  function LoopBlock(): Block {
    Block("loop", [], [Const(Val("one", WORD), 1), SequenceConstruct(Val("cell", CELL), ["one"])], Jump("loop", []))
  }

  function Spin(): Function { Function("spin", [], WORD, [StartBlock(), LoopBlock()]) }

  function SpinDoms(): map<Id, set<Id>> { map["start" := {"start"}, "loop" := {"start", "loop"}] }

  function Spinning(): Module { map["spin" := Spin()] }

  // ---------- Validity ----------

  lemma SpinVals()
    ensures BlockVals(StartBlock()) == [] && BlockVals(LoopBlock()) == [Val("one", WORD), Val("cell", CELL)]
    ensures AllVals(Spin()) == [Val("one", WORD), Val("cell", CELL)]
    ensures Distinct(IdsOf(AllVals(Spin())))
  {
    hide BlockVals;
    NoVals();
    PairVals(LoopBlock(), LoopBlock().insts[0], LoopBlock().insts[1]);
    StartVals();
    var a, b := StartBlock(), LoopBlock();
    assert [a, b][1..] == [b] && [b][1..] == [];
    assert BlocksVals([b]) == BlockVals(b) + BlocksVals([]);
    assert "one"[0] != "cell"[0];
  }

  lemma StartVals()
    ensures BlockVals(StartBlock()) == []
  {
    NoVals();
  }

  lemma SpinTypes()
    ensures Typed(TypesOf(Spin()), "one", WORD) && Typed(TypesOf(Spin()), "cell", CELL)
  {
    hide AllVals;
    SpinVals();
    TypesSound(AllVals(Spin()));
    var vs := [Val("one", WORD), Val("cell", CELL)];
    assert vs[0] in vs && vs[1] in vs;
  }

  lemma SpinFinds()
    ensures FindBlock(Spin().blocks, "loop") == Option.Some(1)
    ensures forall i, j | 0 <= i < j < |Spin().blocks| :: Spin().blocks[i].id != Spin().blocks[j].id
  {
    assert "start"[0] != "loop"[0];
    Emitter.TableFinds(Spin().blocks, "loop", 1);
  }

  lemma SpinHave(b: Block)
    requires b in Spin().blocks
    ensures Have(Spin(), SpinDoms(), b) == {}
  {
    hide BlockVals;
    SpinVals();
    assert "start"[0] != "loop"[0];
    assert DefsOf(StartBlock()) == {};
  }

  lemma SpinEdge(have: set<Id>, from: Id)
    requires from == "start" || from == "loop"
    ensures EdgeOk(Spin(), SpinDoms(), TypesOf(Spin()), have, from, "loop", [])
  {
    hide TypesOf;
    SpinFinds();
    assert "start"[0] != "loop"[0];
  }

  lemma LoopOk()
    ensures BlockOk(Spinning(), Spin(), SpinDoms(), LoopBlock())
  {
    hide TypesOf, Have, EdgeOk;
    var b := LoopBlock();
    assert Spin().blocks[1] == b;
    SpinHave(b);
    SpinTypes();
    assert "one"[0] != "cell"[0];
    TwoOk(Spinning(), TypesOf(Spin()), {}, b.insts[0], b.insts[1]);
    assert b.insts == [b.insts[0], b.insts[1]];
    SpinEdge(HaveAfter({}, b.insts), "loop");
  }

  lemma StartOk()
    ensures BlockOk(Spinning(), Spin(), SpinDoms(), StartBlock())
  {
    hide TypesOf, Have, EdgeOk;
    assert Spin().blocks[0] == StartBlock();
    SpinHave(StartBlock());
    SpinEdge({}, "start");
  }

  lemma SpinValid()
    ensures ModuleOk(Spinning()) && FaithfulModule(Spinning())
  {
    hide BlockOk, AllVals, StartBlock, LoopBlock;
    SpinVals();
    SpinFinds();
    StartOk();
    LoopOk();
    SpinStarts();
    assert FunctionOk(Spinning(), Spin(), SpinDoms());
    SpinFaithful();
  }

  lemma SpinStarts()
    ensures StartBlock().params == [] && StartBlock().id in SpinDoms() && SpinDoms()[StartBlock().id] == {StartBlock().id}
  {
    assert "start"[0] != "loop"[0];
  }

  lemma SpinFaithful()
    ensures FaithfulModule(Spinning())
  {
    assert FaithfulFunction(Spin(), {});
  }

  // ---------- Runs ----------

  /** Each trip around the loop builds one cell. */
  lemma {:induction false} SpinLoop(env: Env, budget: nat, fuel: nat)
    ensures RunBlock(Spinning(), Spin(), 1, env, 0, budget, fuel) == Result(Running, true, 8 * fuel)
    decreases fuel
  {
    if fuel > 0 {
      LoopInsts(env, budget, fuel - 1);
      SpinFinds();
      var env' := env["one" := IntV(1)]["cell" := SeqV([IntV(1)])];
      assert Transfer(Spin(), env', "loop", []) == At(1, env');
      SpinLoop(env', budget, fuel - 1);
    }
  }

  lemma LoopInsts(env: Env, budget: nat, fuel: nat)
    ensures RunInsts(Spinning(), LoopBlock().insts, env, 0, budget, fuel)
         == Done(env["one" := IntV(1)]["cell" := SeqV([IntV(1)])], true, 8)
  {
    var insts := LoopBlock().insts;
    assert insts[1..] == [insts[1]] && insts[1..][1..] == [];
    var env' := env["one" := IntV(1)];
    assert RunInst(Spinning(), insts[0], env, 0, budget, fuel) == Done(env', true, 0);
    assert Lookup(["one"], env') == [IntV(1)];
    var env'' := env'["cell" := SeqV([IntV(1)])];
    assert RunInst(Spinning(), insts[1], env', 0, budget, fuel) == Done(env'', true, 8);
    assert RunInsts(Spinning(), [insts[1]], env', 0, budget, fuel) == Continuing(true, 8, RunInsts(Spinning(), [], env'', 0, budget, fuel));
  }

  lemma SpinRuns(budget: nat, fuel: nat)
    ensures RunFunction(Spinning(), Spin(), [], 0, budget, fuel) == Result(Running, true, if fuel == 0 then 0 else 8 * (fuel - 1))
  {
    if fuel > 0 {
      SpinFinds();
      assert Transfer(Spin(), map[], "loop", []) == At(1, map[]);
      assert RunInsts(Spinning(), [], map[], 0, budget, fuel - 1) == Done(map[], true, 0);
      SpinLoop(map[], budget, fuel - 1);
    }
  }

  /** From any memory, the compiled loop exhausts the arena exactly when its trips
      need more cells than fit, and is otherwise still running. */
  lemma SpinExhausts(budget: nat, mem: C.Memory, fuel: nat)
    requires budget <= MAX_CALL_DEPTH && Valid(mem) && !mem.failed && fuel > 0
    ensures Request(Spinning(), "spin", [], [], budget, mem)
    ensures var flow := Compiled(Spinning(), "spin", [], budget, mem, fuel);
            && (Exhausted(C.FlowMemory(flow)) <==> AlignUp(mem.bump) + 8 * (fuel - 1) > C.ARENA_BYTES)
            && (!Exhausted(C.FlowMemory(flow)) ==> flow.Spent? && AlignUp(flow.mem.bump) == AlignUp(mem.bump) + 8 * (fuel - 1))
  {
    hide ModuleOk, FaithfulModule, Compiled, RunFunction, Spinning;
    SpinValid();
    SpinRuns(budget, fuel);
    SpinEntry();
    FaithfulRefines(Spinning(), "spin", [], [], budget, mem, fuel);
  }

  lemma SpinEntry()
    ensures "spin" in Spinning() && Spinning()["spin"] == Spin() && Spin().params == []
  {
  }

  /** In an arena loaded afresh, 2097152 cells fit and one more does not. */
  lemma FreshSpin(fuel: nat)
    requires fuel > 0
    ensures Exhausted(C.FlowMemory(Compiled(Spinning(), "spin", [], MAX_CALL_DEPTH, Fresh(), fuel))) <==> fuel > 2097153
  {
    hide Compiled, Spinning;
    FreshValid();
    SpinExhausts(MAX_CALL_DEPTH, Fresh(), fuel);
  }
}
