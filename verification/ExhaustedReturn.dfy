/** A function that builds a two-element sequence and returns it: with room for two
    cells it reports the sequence, and without it reports status 3. */
module ExhaustedReturn {
  import opened Words
  import opened Mncs
  import opened Emit
  import opened Naming
  import opened Envelope
  import opened Represent
  import opened Interpreter
  import opened Validation
  import opened Exactness
  import opened Blocks
  import opened Entry
  import opened Simulation
  import opened Refinement
  import opened Endings
  import opened Witness
  import opened IntegerLowering
  import ScalarSimulation
  import C = CLang
  import opened Execution

  const PAIR: Ty := TSeq(WORD, 2)

  function OnlyBlock(): Block {
    Block("entry", [], [Const(Val("one", WORD), 1), SequenceConstruct(Val("pair", PAIR), ["one", "one"])], Return("pair"))
  }

  function Build(): Function { Function("build", [], PAIR, [OnlyBlock()]) }

  function Building(): Module { map["build" := Build()] }

  function OnlyDoms(): map<Id, set<Id>> { map["entry" := {"entry"}] }

  // ---------- Validity ----------

  lemma BuildVals()
    ensures AllVals(Build()) == [Val("one", WORD), Val("pair", PAIR)] && Distinct(IdsOf(AllVals(Build())))
  {
    hide BlockVals;
    PairVals(OnlyBlock(), OnlyBlock().insts[0], OnlyBlock().insts[1]);
    assert [OnlyBlock()][1..] == [];
    assert "one"[0] != "pair"[0];
  }

  lemma BuildTypes()
    ensures Typed(TypesOf(Build()), "one", WORD) && Typed(TypesOf(Build()), "pair", PAIR)
  {
    hide AllVals;
    BuildVals();
    TypesSound(AllVals(Build()));
    var vs := [Val("one", WORD), Val("pair", PAIR)];
    assert vs[0] in vs && vs[1] in vs;
  }

  lemma BuildHave()
    ensures Have(Build(), OnlyDoms(), OnlyBlock()) == {}
  {
    hide BlockVals;
  }

  lemma OnlyOk()
    ensures BlockOk(Building(), Build(), OnlyDoms(), OnlyBlock())
  {
    hide TypesOf, Have;
    var b := OnlyBlock();
    BuildHave();
    BuildTypes();
    assert "one"[0] != "pair"[0];
    TwoOk(Building(), TypesOf(Build()), {}, b.insts[0], b.insts[1]);
    assert b.insts == [b.insts[0], b.insts[1]];
  }

  lemma BuildValid()
    ensures ModuleOk(Building()) && FaithfulModule(Building())
  {
    hide BlockOk, AllVals, TypesOf, Have;
    BuildVals();
    OnlyOk();
    assert FunctionOk(Building(), Build(), OnlyDoms());
    assert FaithfulFunction(Build(), {});
  }

  lemma BuildNeedsArena()
    ensures NeedsArena(Building()) && "build" in Building() && Building()["build"] == Build()
  {
    assert FunctionUsesCells(Build());
    assert FunctionUsesCells(Building()["build"]);
  }

  // ---------- The reference run ----------

  function PairEnv(env: Env): Env { env["one" := IntV(1)]["pair" := SeqV([IntV(1), IntV(1)])] }

  lemma BuildRuns(budget: nat, fuel: nat)
    requires fuel > 0
    ensures RunFunction(Building(), Build(), [], 0, budget, fuel) == Result(Returned(SeqV([IntV(1), IntV(1)])), true, 16)
  {
    hide RunInsts;
    BuildInsts(map[], budget, fuel);
    assert Terminate(Build(), Return("pair"), PairEnv(map[])) == Ends(Returned(SeqV([IntV(1), IntV(1)])));
  }

  lemma BuildInsts(env: Env, budget: nat, fuel: nat)
    requires fuel > 0
    ensures RunInsts(Building(), OnlyBlock().insts, env, 0, budget, fuel - 1) == Done(PairEnv(env), true, 16)
  {
    var insts := OnlyBlock().insts;
    assert insts[1..] == [insts[1]] && insts[1..][1..] == [];
    var env' := env["one" := IntV(1)];
    assert RunInst(Building(), insts[0], env, 0, budget, fuel - 1) == Done(env', true, 0);
    assert Lookup(["one", "one"], env') == [IntV(1), IntV(1)];
    var env'' := env'["pair" := SeqV([IntV(1), IntV(1)])];
    assert RunInst(Building(), insts[1], env', 0, budget, fuel - 1) == Done(env'', true, 16);
    assert RunInsts(Building(), [insts[1]], env', 0, budget, fuel - 1)
        == Continuing(true, 16, RunInsts(Building(), [], env'', 0, budget, fuel - 1));
  }

  // ---------- The compiled run ----------

  /** The block's statements, with `x` for the element and `y` for the sequence. */
  function Code(x: string, y: string): seq<C.Stmt> {
    [ C.Assign(x, C.Cast(C.I32, Num(1))),
      C.Alloc(y, Num(16)),
      C.Store(C.W32, C.Bin(C.Add, C.Var(y), Num(0)), C.Cast(C.U32, C.Var(x))),
      C.Store(C.W32, C.Bin(C.Add, C.Var(y), Num(8)), C.Cast(C.U32, C.Var(x))) ]
  }

  /** The block's flattened instructions. */
  function Flat(): seq<Inst> {
    [ Const(Val("one", WORD), 1), CellAlloc(Val("pair", PAIR), 16),
      CellStore("pair", 0, SlotWidthOf(WORD), "one"), CellStore("pair", 8, SlotWidthOf(WORD), "one") ]
  }

  lemma FlatStores()
    ensures LowerStores("pair", ["one", "one"], SlotWidthOf(WORD), 0) == Flat()[2..]
  {
    assert LowerStores("pair", ["one", "one"], SlotWidthOf(WORD), 1) == [CellStore("pair", 8, SlotWidthOf(WORD), "one")];
  }

  lemma BlockIsFlat()
    ensures Flatten(LowerAll(OnlyBlock().insts)) == Flat()
  {
    var insts, low := OnlyBlock().insts, LowerAll(OnlyBlock().insts);
    FlatStores();
    hide LowerStores, SlotWidthOf;
    var group := [Flat()[1]] + Flat()[2..];
    assert low == [insts[0], Group(group)];
    assert group == Flat()[1..];
    FourPlain(Flat()[1..]);
    assert low[1..][1..] == [] && Flatten(low[1..]) == Flatten(group) + Flatten([]);
    assert Flatten(low) == [insts[0]] + Flatten(low[1..]);
  }

  lemma BlockIsCode(names: Names)
    ensures InstsCode(names, Flatten(LowerAll(OnlyBlock().insts))) == Code(NameOf(names, "one"), NameOf(names, "pair"))
  {
    hide NameOf, InstsCode, InstCode, LowerAll, Flatten;
    BlockIsFlat();
    FourCodes(names, Flat()[0], Flat()[1], Flat()[2], Flat()[3]);
    FirstCodes(names);
    StoreCodes(names);
    assert Flat() == [Flat()[0], Flat()[1], Flat()[2], Flat()[3]];
  }

  lemma FirstCodes(names: Names)
    ensures var code := Code(NameOf(names, "one"), NameOf(names, "pair"));
            InstCode(names, Flat()[0]) == [code[0]] && InstCode(names, Flat()[1]) == [code[1]]
  {
    hide NameOf;
  }

  lemma StoreCodes(names: Names)
    ensures var code := Code(NameOf(names, "one"), NameOf(names, "pair"));
            InstCode(names, Flat()[2]) == [code[2]] && InstCode(names, Flat()[3]) == [code[3]]
  {
    hide NameOf;
  }

  lemma FourPlain(insts: seq<Inst>)
    requires |insts| == 3 && forall i | 0 <= i < 3 :: !insts[i].Group?
    ensures Flatten(insts) == insts
  {
    assert insts[1..][1..][1..] == [];
    assert Flatten(insts[1..][1..]) == insts[1..][1..];
    assert Flatten(insts[1..]) == insts[1..];
  }

  lemma FourCodes(names: Names, a: Inst, b: Inst, c: Inst, d: Inst)
    ensures InstsCode(names, [a, b, c, d]) == InstCode(names, a) + (InstCode(names, b) + (InstCode(names, c) + InstCode(names, d)))
  {
    hide InstCode;
    assert [a, b, c, d][1..] == [b, c, d] && [b, c, d][1..] == [c, d] && [c, d][1..] == [d] && [d][1..] == [];
    assert InstsCode(names, [d]) == InstCode(names, d) + InstsCode(names, []);
    assert InstsCode(names, [c, d]) == InstCode(names, c) + InstsCode(names, [d]);
    assert InstsCode(names, [b, c, d]) == InstCode(names, b) + InstsCode(names, [c, d]);
  }

  predicate Bound(vars: C.Locals, x: string, t: C.CType) { x in vars.types && vars.types[x] == t && x in vars.values }

  /** A store through a bound address of a bound value goes through, flag or no flag. */
  lemma StoreProceeds(x: string, y: string, k: nat, depth: nat, st: C.State)
    requires Bound(st.vars, x, C.I32) && Bound(st.vars, y, C.U64) && k < TWO_31
    ensures var f := C.Run([C.Store(C.W32, C.Bin(C.Add, C.Var(y), Num(k)), C.Cast(C.U32, C.Var(x)))], depth, st);
            f.Next? && f.st.vars == st.vars
  {
    hide Wrap, C.SlotStore;
    RunOne(C.Store(C.W32, C.Bin(C.Add, C.Var(y), Num(k)), C.Cast(C.U32, C.Var(x))), depth, st);
    assert C.Eval(C.Var(y), st.vars).Ok? && C.Eval(C.Var(x), st.vars).Ok?;
    assert C.Eval(Num(k), st.vars) == C.Ok(C.CValue(C.I32, k));
    assert C.Eval(C.Bin(C.Add, C.Var(y), Num(k)), st.vars).Ok?;
  }

  /** From any memory the block's statements run to their end. */
  lemma CodeProceeds(x: string, y: string, depth: nat, st: C.State)
    requires x != y && x in st.vars.types && st.vars.types[x] == C.I32 && y in st.vars.types && st.vars.types[y] == C.U64
    ensures C.Run(Code(x, y), depth, st).Next?
  {
    hide C.Run, C.Eval, C.CellAlloc, Wrap;
    var ss := Code(x, y);
    assert ss == [ss[0]] + ([ss[1]] + ([ss[2]] + [ss[3]]));
    ScalarSimulation.EvalLiteral(st.vars, C.I32, 1);
    RunOne(ss[0], depth, st);
    var a := C.Run([ss[0]], depth, st).st;
    EvalLit(a.vars, 16, C.NoSuffix);
    RunOne(ss[1], depth, a);
    var b := C.Run([ss[1]], depth, a).st;
    StoreProceeds(x, y, 0, depth, b);
    var c := C.Run([ss[2]], depth, b).st;
    StoreProceeds(x, y, 8, depth, c);
    RunCons(ss[2], [ss[3]], depth, b);
    RunCons(ss[1], [ss[2]] + [ss[3]], depth, a);
    RunCons(ss[0], [ss[1]] + ([ss[2]] + [ss[3]]), depth, st);
  }

  lemma CodeCallFree(x: string, y: string)
    ensures C.CallFree(Code(x, y))
  {
    var ss := Code(x, y);
    assert ss[1..][1..][1..][1..] == [];
    assert C.CallFree(ss[1..][1..][1..]);
    assert C.CallFree(ss[1..][1..]);
    assert C.CallFree(ss[1..]);
  }

  /** The activation always reaches its return. */
  lemma BuildArrives(depth: nat, mem: C.Memory, fuel: nat)
    requires depth <= MAX_CALL_DEPTH && fuel > 0
    ensures "build" in Building() && Arrival(Building(), "build", [], depth, mem, fuel).Some?
  {
    hide C.DeclTypes, NeedsArena, FunctionCode, ReturnState;
    BuildNeedsArena();
    BuildParams();
    var f := CodeOf(Building(), "build");
    assert C.BindParams(f.params, []) == map[];
    BlockProceeds(depth, Reset(NeedsArena(Building()), depth, C.State(C.Locals(C.DeclTypes(f.params + f.decls), map[]), mem)), fuel);
  }

  lemma BlockProceeds(depth: nat, st: C.State, fuel: nat)
    requires fuel > 0 && "build" in Building()
    requires var f := CodeOf(Building(), "build"); st.vars.types == C.DeclTypes(f.params + f.decls)
    ensures ReturnState(Building(), "build", 0, depth, st, fuel).Some?
  {
    hide NamesOf, C.Run, C.Exec, C.DeclTypes, NeedsArena, ModuleCode, FunctionCode, TypesOf, AllVals, Code, InstsCode, LowerAll, Flatten;
    var m, names := Building(), NamesOf(Build());
    var x, y := NameOf(names, "one"), NameOf(names, "pair");
    BuildParams();
    BuildNames(NeedsArena(m), st.vars);
    BlockIsCode(names);
    CodeProceeds(x, y, depth, st);
    CodeCallFree(x, y);
    CallFreeExec(ModuleCode(m), Code(x, y), depth, st, fuel - 1);
  }

  /** The two variables are distinct and declared. */
  lemma BuildNames(hasArena: bool, vars: C.Locals)
    requires var f := FunctionCode(Build(), hasArena); vars.types == C.DeclTypes(f.params + f.decls)
    ensures var x, y := NameOf(NamesOf(Build()), "one"), NameOf(NamesOf(Build()), "pair");
            x != y && x in vars.types && vars.types[x] == C.I32 && y in vars.types && vars.types[y] == C.U64
  {
    hide NamesOf, C.DeclTypes, FunctionCode, TypesOf, AllVals;
    BuildVals();
    BuildTypes();
    FunctionDeclared(Build(), hasArena, vars.values);
    FrameSound(Build());
    assert "one"[0] != "pair"[0];
    assert "one" in FrameOf(Build()).types && "pair" in FrameOf(Build()).types;
  }

  lemma BuildParams()
    ensures "build" in Building() && CodeOf(Building(), "build").params == []
    ensures Build().blocks == [OnlyBlock()]
  {
    hide NamesOf, NeedsArena, CasesFrom, Declarations;
  }

  /** From any memory the compiled function reports the pair if two cells are left, and
      status 3 with value 0 if they are not. */
  lemma BuildReports(budget: nat, mem: C.Memory, fuel: nat)
    requires budget <= MAX_CALL_DEPTH && Valid(mem) && !mem.failed && Settled(mem) && fuel > 0
    ensures Request(Building(), "build", [], [], budget, mem)
    ensures var flow := Compiled(Building(), "build", [], budget, mem, fuel);
            && flow.Exit?
            && (if AlignUp(mem.bump) + 16 > C.ARENA_BYTES then flow.mem.status == 3 && flow.mem.value == 0
                else flow.mem.status == 0 && Delivers(SeqV([IntV(1), IntV(1)]), PAIR, flow.mem))
  {
    hide ModuleOk, FaithfulModule, Compiled, RunFunction, Building, NeedsArena, Arrival, Delivers;
    BuildValid();
    BuildNeedsArena();
    BuildRuns(budget, fuel);
    BuildArrives(MAX_CALL_DEPTH - budget, mem, fuel);
    FaithfulRefines(Building(), "build", [], [], budget, mem, fuel);
    if AlignUp(mem.bump) + 16 > C.ARENA_BYTES {
      OverrunReports(Building(), "build", [], [], budget, mem, fuel);
    }
  }
}
