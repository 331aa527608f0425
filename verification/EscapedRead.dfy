/** A valid module whose compiled entry succeeds where the reference executor fails:
    a view that begins before its sequence reads the cell allocated ahead of it. */
module EscapedRead {
  import opened Words
  import opened Mncs
  import opened Emit
  import opened Naming
  import opened IntegerLowering
  import opened Represent
  import opened Envelope
  import opened Relation
  import opened ScalarSimulation
  import opened ViewSimulation
  import opened ViewEscape
  import opened SequenceSimulation
  import opened Interpreter
  import opened Validation
  import opened Blocks
  import opened Entry
  import opened Availability
  import opened Simulation
  import opened Refinement
  import opened Witness
  import Discipline
  import Poison
  import C = CLang
  import opened Execution

  const CELL: Ty := TSeq(U64_TYPE, 1)
  const WINDOW: Ty := TView(U64_TYPE, 1)

  /** The range of the view is the function's two arguments. */
  function ViewInst(): Inst { ViewConstruct(Val("v", WINDOW), Exact(1), 1, "r", "s", "e") }

  /** Two cells, a view of the second, and the view's first element. */
  function PeekInsts(): seq<Inst> {
    [ Const(Val("a", U64_TYPE), 7),
      SequenceConstruct(Val("l", CELL), ["a"]),
      Const(Val("b", U64_TYPE), 9),
      SequenceConstruct(Val("r", CELL), ["b"]),
      ViewInst(),
      Const(Val("z", U64_TYPE), 0),
      SequenceProject(Val("x", U64_TYPE), "v", "z", UpTo(1), RuntimeChecked, S64) ]
  }

  function PeekBlock(): Block { Block("only", [], PeekInsts(), Return("x")) }

  function Peek(): Function { Function("peek", [Val("s", U64_TYPE), Val("e", U64_TYPE)], U64_TYPE, [PeekBlock()]) }

  function Peeking(): Module { map["peek" := Peek()] }

  // ---------- Validity ----------

  function PeekVals(): seq<Val> {
    [ Val("a", U64_TYPE), Val("l", CELL), Val("b", U64_TYPE), Val("r", CELL), Val("v", WINDOW), Val("z", U64_TYPE), Val("x", U64_TYPE) ]
  }

  predicate Plain(inst: Inst) { Source(inst) && (inst.SequenceConstruct? ==> inst.dest.ty.TSeq?) }

  /** The destinations of plain instructions, in order. */
  lemma {:induction false} PlainDests(insts: seq<Inst>)
    requires forall i | 0 <= i < |insts| :: Plain(insts[i])
    ensures |Dests(Flatten(LowerAll(insts)))| == |insts|
    ensures forall i | 0 <= i < |insts| :: Plain(insts[i]) && Dests(Flatten(LowerAll(insts)))[i] == insts[i].dest
    decreases |insts|
  {
    hide Flatten, LowerAll, Dests, Source;
    if insts == [] {
      NoVals();
    } else {
      assert insts == [insts[0]] + insts[1..];
      DestsCons(insts[0], insts[1..]);
      PlainDests(insts[1..]);
    }
  }

  lemma PeekDefines()
    ensures AllVals(Peek()) == Peek().params + PeekVals() && Distinct(IdsOf(AllVals(Peek())))
  {
    hide Flatten, LowerAll, Dests, BlockVals, PeekVals, PeekInsts, IdsOf, Ids, Distinct;
    PeekBlockVals();
    OneBlock(PeekBlock());
    PeekNamed();
    PeekIds();
  }

  lemma PeekBlockVals()
    ensures BlockVals(PeekBlock()) == PeekVals()
  {
    hide Flatten, LowerAll, Dests;
    PlainDests(PeekInsts());
    assert Dests(Flatten(LowerAll(PeekInsts()))) == PeekVals();
  }

  lemma OneBlock(b: Block)
    ensures BlocksVals([b]) == BlockVals(b)
  {
    hide BlockVals;
    assert [b][1..] == [];
    assert BlocksVals([b]) == BlockVals(b) + BlocksVals([]);
  }

  lemma PeekNamed()
    ensures IdsOf(Peek().params + PeekVals()) == Ids()
  {
  }

  lemma PeekIds()
    ensures Distinct(Ids())
  {
    var ids := Ids();
    assert forall i | 0 <= i < |ids| :: |ids[i]| == 1;
    var cs := ['s', 'e', 'a', 'l', 'b', 'r', 'v', 'z', 'x'];
    assert forall i | 0 <= i < |ids| :: ids[i][0] == cs[i];
  }

  predicate PeekTyped(types: Types) {
    && Typed(types, "s", U64_TYPE) && Typed(types, "e", U64_TYPE)
    && Typed(types, "a", U64_TYPE) && Typed(types, "l", CELL) && Typed(types, "b", U64_TYPE) && Typed(types, "r", CELL)
    && Typed(types, "v", WINDOW) && Typed(types, "z", U64_TYPE) && Typed(types, "x", U64_TYPE)
  }

  lemma PeekTypes()
    ensures PeekTyped(TypesOf(Peek()))
  {
    hide AllVals;
    PeekDefines();
    TypesSound(AllVals(Peek()));
    var vs := Peek().params + PeekVals();
    assert vs[0] in vs && vs[1] in vs && vs[2] in vs && vs[3] in vs && vs[4] in vs && vs[5] in vs && vs[6] in vs && vs[7] in vs && vs[8] in vs;
  }

  lemma InstsCons(m: Module, types: Types, have: set<Id>, insts: seq<Inst>)
    requires insts != [] && WellTyped(m, types, insts[0]) && Available(Uses(insts[0]), have) && insts[0].dest.id !in have
    requires InstsOk(m, types, have + {insts[0].dest.id}, insts[1..])
    requires "x" in HaveAfter(have + {insts[0].dest.id}, insts[1..])
    ensures InstsOk(m, types, have, insts) && "x" in HaveAfter(have, insts)
  {
    hide WellTyped, Uses;
    SourceTyped(m, types, insts[0]);
  }

  function Ids(): (r: seq<Id>)
    ensures |r| == 9
  {
    ["s", "e", "a", "l", "b", "r", "v", "z", "x"]
  }

  /** What is bound before instruction `k`. */
  function Before(k: nat): (r: set<Id>)
    requires k <= 7
    ensures k == 7 ==> Ids()[8] in r
  {
    if k == 0 then {Ids()[0], Ids()[1]} else Before(k - 1) + {Ids()[k + 1]}
  }

  lemma {:induction false} BeforeIs(k: nat, i: nat)
    requires k <= 7 && i < 9
    ensures Ids()[i] in Before(k) <==> i < k + 2
  {
    hide Ids;
    PeekIds();
    if k > 0 {
      BeforeIs(k - 1, i);
    }
  }

  /** Instruction `k` on its own. */
  lemma PeekOk(m: Module, types: Types, k: nat)
    requires PeekTyped(types) && k < 7
    ensures var inst := PeekInsts()[k];
            WellTyped(m, types, inst) && Available(Uses(inst), Before(k)) && inst.dest == PeekVals()[k] && inst.dest.id !in Before(k)
  {
    hide Before, WellTyped, Available;
    PeekWell(m, types, k);
    PeekUses(k);
  }

  lemma PeekWell(m: Module, types: Types, k: nat)
    requires PeekTyped(types) && k < 7
    ensures WellTyped(m, types, PeekInsts()[k])
  {
    var inst := PeekInsts()[k];
    if k == 0 {
    } else if k == 1 {
    } else if k == 2 {
    } else if k == 3 {
    } else if k == 4 {
    } else if k == 5 {
    } else {
    }
  }

  lemma PeekUses(k: nat)
    requires k < 7
    ensures var inst := PeekInsts()[k];
            Plain(inst) && Available(Uses(inst), Before(k)) && inst.dest == PeekVals()[k] && inst.dest.id !in Before(k)
  {
    hide Before;
    BeforeIs(k, k + 2);
    var inst := PeekInsts()[k];
    if k == 1 {
      BeforeIs(k, 2);
    } else if k == 3 {
      BeforeIs(k, 4);
    } else if k == 4 {
      BeforeIs(k, 5);
      BeforeIs(k, 0);
      BeforeIs(k, 1);
    } else if k == 6 {
      BeforeIs(k, 6);
      BeforeIs(k, 7);
    }
  }

  /** The instructions from `k` on. */
  lemma {:induction false} PeekInstsOk(m: Module, types: Types, k: nat)
    requires PeekTyped(types) && k <= 7
    ensures InstsOk(m, types, Before(k), PeekInsts()[k..]) && "x" in HaveAfter(Before(k), PeekInsts()[k..])
    decreases 7 - k
  {
    hide WellTyped, Uses, InstsOk, HaveAfter;
    if k == 7 {
      assert PeekInsts()[7..] == [];
      EndOk(m, types, Before(7));
    } else {
      var rest := PeekInsts()[k..];
      assert rest[0] == PeekInsts()[k] && rest[1..] == PeekInsts()[k + 1..];
      PeekOk(m, types, k);
      PeekInstsOk(m, types, k + 1);
      InstsCons(m, types, Before(k), rest);
    }
  }

  lemma EndOk(m: Module, types: Types, have: set<Id>)
    requires "x" in have
    ensures InstsOk(m, types, have, []) && "x" in HaveAfter(have, [])
  {
  }

  lemma PeekHave(dom: map<Id, set<Id>>)
    ensures Have(Peek(), dom, PeekBlock()) == Before(0)
  {
    hide DefsOf;
    assert Peek().params[0].id == Ids()[0] && Peek().params[1].id == Ids()[1];
  }

  lemma PeekBlockOk(dom: map<Id, set<Id>>)
    ensures BlockOk(Peeking(), Peek(), dom, PeekBlock())
  {
    hide TypesOf, InstsOk, HaveAfter, Before, Have;
    PeekTypes();
    PeekHave(dom);
    PeekInstsOk(Peeking(), TypesOf(Peek()), 0);
    assert PeekInsts()[0..] == PeekInsts();
  }

  lemma PeekValid()
    ensures ModuleOk(Peeking())
  {
    hide BlockOk, AllVals, PeekInsts, Distinct;
    var dom: map<Id, set<Id>> := map["only" := {"only"}];
    PeekDefines();
    PeekBlockOk(dom);
    assert FunctionOk(Peeking(), Peek(), dom);
  }

  // ---------- The reference executor ----------

  lemma RunYields(m: Module, insts: seq<Inst>, env: Env, depth: nat, limit: nat, fuel: nat, v: Value)
    requires insts != [] && !insts[0].Call? && Dest(insts[0]).Some? && Evaluate(insts[0], env) == Yields(v)
    ensures RunInsts(m, insts, env, depth, limit, fuel)
         == Continuing(InEnvelope(insts[0], env), BytesOf(insts[0]), RunInsts(m, insts[1..], env[insts[0].dest.id := v], depth, limit, fuel))
  {
    hide Evaluate, InEnvelope, BytesOf;
  }

  function Arguments(): seq<Value> { [IntV(TWO_64 - 1), IntV(0)] }

  /** The environment before instruction `k`, up to the view. */
  function EnvAt(k: nat): Env
    requires k <= 4
  {
    if k == 0 then map["s" := IntV(TWO_64 - 1), "e" := IntV(0)]
    else if k == 1 then EnvAt(0)["a" := IntV(7)]
    else if k == 2 then EnvAt(1)["l" := SeqV([IntV(7)])]
    else if k == 3 then EnvAt(2)["b" := IntV(9)]
    else EnvAt(3)["r" := SeqV([IntV(9)])]
  }

  /** What each of the first four instructions yields, all inside their envelopes. */
  lemma EarlyYields(k: nat)
    requires k < 4
    ensures var inst := PeekInsts()[k];
            && !inst.Call? && Dest(inst).Some? && InEnvelope(inst, EnvAt(k))
            && Evaluate(inst, EnvAt(k)).Yields? && EnvAt(k + 1) == EnvAt(k)[inst.dest.id := Evaluate(inst, EnvAt(k)).v]
            && BytesOf(inst) == if k == 1 || k == 3 then 8 else 0
  {
    if k == 1 {
      assert Lookup(["a"], EnvAt(1)) == [IntV(7)];
    } else if k == 3 {
      assert Lookup(["b"], EnvAt(3)) == [IntV(9)];
    }
  }

  lemma {:induction false} EarlyRuns(k: nat, budget: nat, fuel: nat)
    requires k <= 4
    ensures var r := RunInsts(Peeking(), PeekInsts()[k..], EnvAt(k), 0, budget, fuel); r.Stopped? && r.outcome == Failed
    decreases 4 - k
  {
    hide Evaluate, InEnvelope, BytesOf, EnvAt;
    var rest := PeekInsts()[k..];
    assert rest[0] == PeekInsts()[k] && rest[1..] == PeekInsts()[k + 1..];
    if k == 4 {
      ViewRefused();
    } else {
      EarlyYields(k);
      EarlyRuns(k + 1, budget, fuel);
      RunYields(Peeking(), rest, EnvAt(k), 0, budget, fuel, Evaluate(rest[0], EnvAt(k)).v);
    }
  }

  lemma ViewRefused()
    ensures Evaluate(ViewInst(), EnvAt(4)) == Trap
    ensures IsInt(EnvAt(4), "s") && IsInt(EnvAt(4), "e") && EnvAt(4)["s"].n == TWO_64 - 1 && EnvAt(4)["e"].n == 0
  {
    OneLetter();
  }

  lemma OneLetter()
    ensures "s" !in {"a", "l", "b", "r"} && "e" !in {"s", "a", "l", "b", "r"} && "r" !in {"s", "e"}
    ensures "l" !in {"b", "r", "v", "z"} && "v" != "z" && "r" !in {"b", "v"}
  {
    assert "s"[0] == 's' && "e"[0] == 'e' && "a"[0] == 'a' && "l"[0] == 'l' && "b"[0] == 'b' && "r"[0] == 'r' && "v"[0] == 'v' && "z"[0] == 'z';
  }

  lemma EntryEnv()
    ensures BindAll(map[], Peek().params, Arguments()) == EnvAt(0)
  {
    OneLetter();
    var ps, vs := Peek().params, Arguments();
    assert ps[1..] == [ps[1]] && vs[1..] == [vs[1]] && ps[1..][1..] == [] && vs[1..][1..] == [];
  }

  lemma PeekFails(budget: nat, fuel: nat)
    requires fuel > 0
    ensures RunFunction(Peeking(), Peek(), Arguments(), 0, budget, fuel).outcome == Failed
  {
    hide RunInsts, PeekInsts;
    EntryEnv();
    EarlyRuns(0, budget, fuel - 1);
    assert PeekInsts()[0..] == PeekInsts();
  }

  // ---------- The compiled code ----------

  /** One instruction of a list that goes on. */
  lemma ExecInst(m: Module, names: Names, insts: seq<Inst>, depth: nat, st: C.State, fuel: nat)
    requires insts != [] && Plain(insts[0]) && !insts[0].Call? && Dest(insts[0]).Some?
    requires C.Run(LoweredCode(names, insts[0]), depth, st).Next?
    ensures C.Exec(ModuleCode(m), InstsCode(names, Flatten(LowerAll(insts))), depth, st, fuel)
         == C.Exec(ModuleCode(m), InstsCode(names, Flatten(LowerAll(insts[1..]))), depth, C.Run(LoweredCode(names, insts[0]), depth, st).st, fuel)
  {
    hide C.Exec, C.Run, ModuleCode, LoweredCode, InstsCode, Flatten, LowerAll;
    CodeSplit(names, insts);
    LoweredTame(names, insts[0]);
    Discipline.TameShape(LoweredCode(names, insts[0]), NameOf(names, insts[0].dest.id));
    CallFreeExec(ModuleCode(m), LoweredCode(names, insts[0]), depth, st, fuel);
    ExecAppend(ModuleCode(m), LoweredCode(names, insts[0]), InstsCode(names, Flatten(LowerAll(insts[1..]))), depth, st, fuel);
  }

  /** An instruction that yields, inside its envelope and with room for it. */
  lemma Advance(m: Module, fr: Frame, insts: seq<Inst>, env: Env, depth: nat, st: C.State, fuel: nat) returns (later: C.State)
    requires insts != [] && Plain(insts[0]) && Ready(m, fr, insts[0], env, st) && InEnvelope(insts[0], env)
    requires !insts[0].Call? && insts[0].dest.id !in Uses(insts[0])
    requires Evaluate(insts[0], env).Yields? && !Overruns(st.mem, BytesOf(insts[0]))
    ensures C.Run(LoweredCode(fr.names, insts[0]), depth, st) == C.Next(later)
    ensures C.Exec(ModuleCode(m), InstsCode(fr.names, Flatten(LowerAll(insts))), depth, st, fuel)
         == C.Exec(ModuleCode(m), InstsCode(fr.names, Flatten(LowerAll(insts[1..]))), depth, later, fuel)
    ensures Related(fr, env[insts[0].dest.id := Evaluate(insts[0], env).v], later)
    ensures Extends(st.mem, later.mem) && Took(st.mem, later.mem, BytesOf(insts[0]))
  {
    hide Evaluate, InEnvelope, C.Run, C.Exec, LoweredCode, Related, FrameOk, BytesOf, Uses, ModuleCode, InstsCode, Flatten, LowerAll, WellTyped;
    SimInst(m, fr, insts[0], env, st, depth);
    later := C.Run(LoweredCode(fr.names, insts[0]), depth, st).st;
    SourceTyped(m, fr.types, insts[0]);
    ExecInst(m, fr.names, insts, depth, st, fuel);
  }

  function CodeFrom(fr: Frame, k: nat): seq<C.Stmt>
    requires k <= 7
  {
    InstsCode(fr.names, Flatten(LowerAll(PeekInsts()[k..])))
  }

  lemma {:induction false} EnvKeys(k: nat)
    requires k <= 4
    ensures Before(k) <= EnvAt(k).Keys
  {
    if k > 0 {
      EnvKeys(k - 1);
    }
  }

  lemma ReadyAt(fr: Frame, k: nat, env: Env, st: C.State)
    requires FrameOk(fr) && PeekTyped(fr.types) && Related(fr, env, st) && k < 7 && Before(k) <= env.Keys
    ensures var inst := PeekInsts()[k];
            Ready(Peeking(), fr, inst, env, st) && Plain(inst) && !inst.Call? && Dest(inst).Some? && inst.dest.id !in Uses(inst)
  {
    hide FrameOk, Related, WellTyped, Before, Uses;
    PeekOk(Peeking(), fr.types, k);
    PeekUses(k);
    SourceTyped(Peeking(), fr.types, PeekInsts()[k]);
  }

  /** The next of the first four instructions. */
  lemma EarlyStep(fr: Frame, k: nat, depth: nat, st: C.State, fuel: nat) returns (later: C.State)
    requires k < 4 && FrameOk(fr) && PeekTyped(fr.types) && Related(fr, EnvAt(k), st) && !Overruns(st.mem, BytesOf(PeekInsts()[k]))
    ensures C.Run(LoweredCode(fr.names, PeekInsts()[k]), depth, st) == C.Next(later)
    ensures C.Exec(ModuleCode(Peeking()), CodeFrom(fr, k), depth, st, fuel) == C.Exec(ModuleCode(Peeking()), CodeFrom(fr, k + 1), depth, later, fuel)
    ensures Related(fr, EnvAt(k + 1), later) && Extends(st.mem, later.mem) && Took(st.mem, later.mem, BytesOf(PeekInsts()[k]))
  {
    hide FrameOk, Related, Ready, Evaluate, InEnvelope, EnvAt, Before, BytesOf, Uses, C.Run, C.Exec, LoweredCode, InstsCode, Flatten, LowerAll, ModuleCode, Overruns, Took, Extends, PeekTyped;
    var insts := PeekInsts()[k..];
    assert insts[0] == PeekInsts()[k] && insts[1..] == PeekInsts()[k + 1..];
    EnvKeys(k);
    EarlyYields(k);
    ReadyAt(fr, k, EnvAt(k), st);
    later := Advance(Peeking(), fr, insts, EnvAt(k), depth, st, fuel);
  }

  /** A one-element construction puts its input's word at the next aligned address. */
  lemma CellBuilt(fr: Frame, inst: Inst, env: Env, input: Id, n: int, depth: nat, st: C.State, later: C.State)
    requires Ready(Peeking(), fr, inst, env, st) && inst.SequenceConstruct? && inst.dest.ty == CELL && inst.dest.id !in Uses(inst)
    requires inst.inputs == [input] && input in env && env[input] == IntV(n) && 0 <= n < TWO_31
    requires !Overruns(st.mem, 8) && C.Run(LoweredCode(fr.names, inst), depth, st) == C.Next(later)
    ensures inst.dest.id in fr.names
    ensures var base := AlignUp(st.mem.bump);
            && Holds(later.vars, fr.names[inst.dest.id], C.U64, base)
            && 0 <= base && base + 8 == later.mem.bump && C.SlotAt(later.mem, C.W64, base) == n
  {
    hide FrameOk, C.Run, LoweredCode, C.SlotAt, Wrap;
    ConstructBuilds(Peeking(), fr, inst, env, st, depth);
    OperandHolds(fr, env, st, input);
    SmallCell(n);
    assert InputRaws(fr, inst.inputs, U64_TYPE, st)[0] == n;
  }

  lemma SmallCell(n: int)
    requires 0 <= n < TWO_31
    ensures CellOf(n, B64) == n && C.ToType(C.U64, n) == n && C.ToType(C.I64, n) == n
  {
    WrapFixes(n, TWO_64, true);
    C.ToTypeFixes(C.U64, n);
  }

  /** A literal and the cell built from it. */
  lemma BuildOne(fr: Frame, k: nat, depth: nat, st: C.State, fuel: nat) returns (later: C.State)
    requires k == 0 || k == 2
    requires FrameOk(fr) && PeekTyped(fr.types) && Related(fr, EnvAt(k), st) && !Overruns(st.mem, 8)
    ensures C.Exec(ModuleCode(Peeking()), CodeFrom(fr, k), depth, st, fuel) == C.Exec(ModuleCode(Peeking()), CodeFrom(fr, k + 2), depth, later, fuel)
    ensures Related(fr, EnvAt(k + 2), later) && Extends(st.mem, later.mem)
    ensures var base, d := AlignUp(st.mem.bump), if k == 0 then "l" else "r";
            && d in fr.names && Holds(later.vars, fr.names[d], C.U64, base)
            && 0 <= base && base + 8 == later.mem.bump && C.SlotAt(later.mem, C.W64, base) == if k == 0 then 7 else 9
  {
    hide FrameOk, Related, Ready, EnvAt, Before, C.Run, C.Exec, LoweredCode, InstsCode, Flatten, LowerAll, ModuleCode, C.SlotAt, PeekTyped, Extends, Uses, Evaluate, InEnvelope;
    EarlyYields(k);
    EarlyYields(k + 1);
    EarlyInputs();
    ExtendsSelf(fr, EnvAt(k), st);
    var s1 := EarlyStep(fr, k, depth, st, fuel);
    later := EarlyStep(fr, k + 1, depth, s1, fuel);
    EnvKeys(k + 1);
    ReadyAt(fr, k + 1, EnvAt(k + 1), s1);
    CellBuilt(fr, PeekInsts()[k + 1], EnvAt(k + 1), if k == 0 then "a" else "b", if k == 0 then 7 else 9, depth, s1, later);
    ExtendsTransitive(st.mem, s1.mem, later.mem);
  }

  /** Up to the view: two cells, one right behind the other. */
  lemma PeekEarly(fr: Frame, depth: nat, st: C.State, fuel: nat) returns (later: C.State)
    requires FrameOk(fr) && PeekTyped(fr.types) && Related(fr, EnvAt(0), st) && !Overruns(st.mem, 16)
    ensures C.Exec(ModuleCode(Peeking()), CodeFrom(fr, 0), depth, st, fuel) == C.Exec(ModuleCode(Peeking()), CodeFrom(fr, 4), depth, later, fuel)
    ensures Related(fr, EnvAt(4), later) && "r" in fr.names
    ensures var base := AlignUp(st.mem.bump);
            && Holds(later.vars, fr.names["r"], C.U64, base + 8)
            && 0 <= base && base + 8 <= later.mem.bump && C.SlotAt(later.mem, C.W64, base) == 7
  {
    hide FrameOk, Related, EnvAt, C.Exec, InstsCode, Flatten, LowerAll, ModuleCode, C.SlotAt, PeekTyped, Extends;
    var base := AlignUp(st.mem.bump);
    AlignSlots(st.mem.bump, 1);
    var s2 := BuildOne(fr, 0, depth, st, fuel);
    later := BuildOne(fr, 2, depth, s2, fuel);
    SlotKept(s2.mem, later.mem, C.W64, base);
  }

  lemma EarlyInputs()
    ensures PeekInsts()[1].inputs == ["a"] && "a" in EnvAt(1) && EnvAt(1)["a"] == IntV(7)
    ensures PeekInsts()[3].inputs == ["b"] && "b" in EnvAt(3) && EnvAt(3)["b"] == IntV(9)
  {
  }

  /** The environment that the compiled state stands for once the view is made,
      which no run of the reference executor reaches. */
  function EscapedEnv(): Env { EnvAt(4)["v" := SeqV([IntV(7)])] }

  /** A descriptor of one word that the arena holds at `base`. */
  lemma WindowRep(base: nat, n: int, m: C.Memory)
    requires Valid(m) && base + 8 <= m.bump && C.SlotAt(m, C.W64, base) == n && 0 <= n < TWO_31
    ensures Rep(SeqV([IntV(n)]), WINDOW, Packed(base, 1), m)
  {
    hide C.SlotAt, Wrap;
    SmallCell(n);
    ModUnique(Packed(base, 1), TWO_32, 1, base);
    assert Rep(IntV(n), U64_TYPE, SlotCell(m, U64_TYPE, base), m);
    assert Slots([IntV(n)], U64_TYPE, base, m);
  }

  /** The view comes out as the first cell. */
  lemma PeekView(fr: Frame, base: nat, depth: nat, st: C.State, fuel: nat) returns (later: C.State)
    requires FrameOk(fr) && PeekTyped(fr.types) && Related(fr, EnvAt(4), st) && "r" in fr.names
    requires Holds(st.vars, fr.names["r"], C.U64, base + 8) && base + 8 <= st.mem.bump && C.SlotAt(st.mem, C.W64, base) == 7
    ensures C.Exec(ModuleCode(Peeking()), CodeFrom(fr, 4), depth, st, fuel) == C.Exec(ModuleCode(Peeking()), CodeFrom(fr, 5), depth, later, fuel)
    ensures Related(fr, EscapedEnv(), later)
  {
    hide FrameOk, Ready, EnvAt, Before, C.Run, C.Exec, InstCode, InstsCode, Flatten, LowerAll, ModuleCode, C.SlotAt, Packed, Evaluate, InEnvelope, Rep, LoweredCode, CodeFrom;
    EnvKeys(4);
    ReadyAt(fr, 4, EnvAt(4), st);
    ViewRefused();
    LastStart(Peeking(), fr, ViewInst(), EnvAt(4), st, depth);
    LoweredPlain(fr.names, ViewInst());
    later := C.Run(LoweredCode(fr.names, ViewInst()), depth, st).st;
    WindowRep(base, 7, st.mem);
    BindDest(fr, EnvAt(4), st, Val("v", WINDOW), SeqV([IntV(7)]), later);
    ExecFrom(fr, 4, depth, st, fuel);
  }

  lemma ExecFrom(fr: Frame, k: nat, depth: nat, st: C.State, fuel: nat)
    requires k < 7 && C.Run(LoweredCode(fr.names, PeekInsts()[k]), depth, st).Next?
    ensures C.Exec(ModuleCode(Peeking()), CodeFrom(fr, k), depth, st, fuel)
         == C.Exec(ModuleCode(Peeking()), CodeFrom(fr, k + 1), depth, C.Run(LoweredCode(fr.names, PeekInsts()[k]), depth, st).st, fuel)
  {
    hide C.Run, C.Exec, InstsCode, Flatten, LowerAll, ModuleCode, LoweredCode;
    var insts := PeekInsts()[k..];
    assert insts[0] == PeekInsts()[k] && insts[1..] == PeekInsts()[k + 1..];
    ExecInst(Peeking(), fr.names, insts, depth, st, fuel);
  }

  function ReadEnv(): Env { EscapedEnv()["z" := IntV(0)]["x" := IntV(7)] }

  lemma LateYields()
    ensures var inst := PeekInsts()[5]; InEnvelope(inst, EscapedEnv()) && Evaluate(inst, EscapedEnv()) == Yields(IntV(0)) && BytesOf(inst) == 0
    ensures var inst, env := PeekInsts()[6], EscapedEnv()["z" := IntV(0)];
            InEnvelope(inst, env) && Evaluate(inst, env) == Yields(IntV(7)) && BytesOf(inst) == 0
    ensures Before(5) <= EscapedEnv().Keys && Before(6) <= EscapedEnv()["z" := IntV(0)].Keys
  {
    hide EnvAt;
    OneLetter();
    EnvKeys(4);
    assert Before(5) == Before(4) + {"v"} && Before(6) == Before(5) + {"z"};
  }

  /** The read through the view. */
  lemma PeekRead(fr: Frame, depth: nat, st: C.State, fuel: nat) returns (later: C.State)
    requires FrameOk(fr) && PeekTyped(fr.types) && Related(fr, EscapedEnv(), st)
    ensures C.Exec(ModuleCode(Peeking()), CodeFrom(fr, 5), depth, st, fuel) == C.Next(later)
    ensures Related(fr, ReadEnv(), later)
  {
    hide FrameOk, Related, Ready, EscapedEnv, Before, C.Run, C.Exec, InstsCode, Flatten, LowerAll, ModuleCode, Evaluate, InEnvelope, LoweredCode, BytesOf, Overruns, Took, Extends, PeekTyped, Uses;
    LateYields();
    var insts := PeekInsts();
    assert insts[5..][0] == insts[5] && insts[5..][1..] == insts[6..] && insts[6..][0] == insts[6] && insts[6..][1..] == [];
    ReadyAt(fr, 5, EscapedEnv(), st);
    ExtendsSelf(fr, EscapedEnv(), st);
    var mid := Advance(Peeking(), fr, insts[5..], EscapedEnv(), depth, st, fuel);
    ReadyAt(fr, 6, EscapedEnv()["z" := IntV(0)], mid);
    ExtendsSelf(fr, EscapedEnv()["z" := IntV(0)], mid);
    later := Advance(Peeking(), fr, insts[6..], EscapedEnv()["z" := IntV(0)], depth, mid, fuel);
    NoCode(Peeking(), fr.names, depth, later, fuel);
  }

  /** The block's instructions, from entry on. */
  lemma PeekInstsRun(fr: Frame, depth: nat, st: C.State, fuel: nat) returns (last: C.State)
    requires FrameOk(fr) && PeekTyped(fr.types) && Related(fr, EnvAt(0), st) && !Overruns(st.mem, 16)
    ensures C.Exec(ModuleCode(Peeking()), CodeFrom(fr, 0), depth, st, fuel) == C.Next(last) && Related(fr, ReadEnv(), last)
  {
    hide FrameOk, Related, EnvAt, ReadEnv, EscapedEnv, C.Exec, CodeFrom, ModuleCode, PeekTyped, Overruns, C.SlotAt;
    var s4 := PeekEarly(fr, depth, st, fuel);
    var s5 := PeekView(fr, AlignUp(st.mem.bump), depth, s4, fuel);
    last := PeekRead(fr, depth, s5, fuel);
  }

  lemma PeekFrame()
    ensures FrameOk(FrameOf(Peek())) && PeekTyped(FrameOf(Peek()).types)
  {
    hide PeekTyped, FrameOk, AllVals, Distinct;
    PeekTypes();
    PeekDefines();
    FrameSound(Peek());
  }

  /** Its terminator hands back what was read. */
  lemma PeekReturns(fr: Frame, depth: nat, st: C.State)
    requires FrameOk(fr) && PeekTyped(fr.types) && Related(fr, ReadEnv(), st)
    ensures Lands(fr, Peek(), Ends(Returned(IntV(7))), st, C.Run(TermCode(fr.names, Peek(), Return("x"), NeedsArena(Peeking())), depth, st))
  {
    hide FrameOk, Related, C.Run, TermCode, NeedsArena, EscapedEnv, Lands;
    SimReturn(fr, Peek(), "x", NeedsArena(Peeking()), ReadEnv(), st, depth);
  }

  /** The block's code, from entry to return. */
  lemma PeekBlockRuns(depth: nat, st: C.State, fuel: nat)
    requires Related(FrameOf(Peek()), EnvAt(0), st) && !Overruns(st.mem, 16)
    ensures var flow := C.Exec(ModuleCode(Peeking()), C.SwitchTail(CodeOf(Peeking(), "peek").cases, 0), depth, st, fuel);
            Succeeds(flow) && Delivers(IntV(7), U64_TYPE, flow.mem)
  {
    hide FrameOk, Related, EnvAt, ReadEnv, C.Exec, C.Run, C.SwitchTail, ModuleCode, CodeOf, InstsCode, Flatten, LowerAll, TermCode, NamesOf, TypesOf, PeekTyped, NeedsArena, Overruns, PeekInsts, Rep;
    var fr := FrameOf(Peek());
    PeekFrame();
    var last := PeekInstsRun(fr, depth, st, fuel);
    assert PeekInsts()[0..] == PeekInsts();
    PeekReturns(fr, depth, last);
    CaseShape(Peeking(), "peek", 0);
    ExecAppend(ModuleCode(Peeking()), BlockInsts(Peeking(), "peek", 0), BlockTerm(Peeking(), "peek", 0) + C.SwitchTail(CodeOf(Peeking(), "peek").cases, 1), depth, st, fuel);
    ExecTerm(Peeking(), "peek", 0, Ends(Returned(IntV(7))), fr, depth, last, fuel);
  }

  function Cells(): seq<int> { [-1, 0] }

  lemma PeekRequest(budget: nat, mem: C.Memory)
    requires budget <= MAX_CALL_DEPTH && Valid(mem) && !mem.failed
    ensures Request(Peeking(), "peek", Arguments(), Cells(), budget, mem)
  {
    hide ModuleOk, NeedsArena, Wrap;
    PeekValid();
    SignedCell(TWO_64 - 1);
    SignedCell(0);
  }

  /** From any memory with room for two cells, the compiled entry reports success
      and delivers 7, where the reference executor fails. */
  lemma SuccessWithoutValue(budget: nat, mem: C.Memory, fuel: nat)
    requires budget <= MAX_CALL_DEPTH && Valid(mem) && !mem.failed && !Overruns(mem, 16) && fuel > 0
    ensures Request(Peeking(), "peek", Arguments(), Cells(), budget, mem)
    ensures RunFunction(Peeking(), Peeking()["peek"], Arguments(), 0, budget, fuel).outcome == Failed
    ensures var flow := Compiled(Peeking(), "peek", Cells(), budget, mem, fuel);
            Succeeds(flow) && Delivers(IntV(7), U64_TYPE, flow.mem)
  {
    hide C.Activate, RunFunction, ModuleCode, NeedsArena, ModuleOk, ArgsRep, FunctionCode, Rep, Overruns;
    PeekRequest(budget, mem);
    PeekFails(budget, fuel);
    PeekActivates(MAX_CALL_DEPTH - budget, mem, fuel);
  }

  lemma PeekActivates(depth: nat, mem: C.Memory, fuel: nat)
    requires depth <= MAX_CALL_DEPTH && Valid(mem) && !mem.failed && !Overruns(mem, 16) && fuel > 0
    requires ArgsRep(Arguments(), Peek().params, Cells(), mem)
    ensures var flow := C.Activate(ModuleCode(Peeking()), CodeOf(Peeking(), "peek"), Cells(), depth, mem, fuel);
            Succeeds(flow) && Delivers(IntV(7), U64_TYPE, flow.mem)
  {
    hide C.Exec, C.Run, C.SwitchTail, ModuleCode, NeedsArena, ArgsRep, Related, PeekBlock, Prologue, C.DeclTypes, C.BindParams, Declarations, CasesFrom, EnvAt, AllVals, Overruns, Valid, Rep, BindAll, Distinct, NamesOf;
    PeekDefines();
    EntryEnv();
    var hasArena := NeedsArena(Peeking());
    var st := C.State(EntryVars(Peek(), hasArena, Cells()), mem);
    RunPrologue(hasArena, depth, st);
    var st1 := Reset(hasArena, depth, st);
    ResetKeeps(hasArena, depth, st);
    ArgsKept(Arguments(), Peek().params, Cells(), mem, st1.mem);
    EntryRelated(Peek(), hasArena, Arguments(), Cells(), st1.mem);
    PeekBlockRuns(depth, st1, fuel - 1);
  }

  lemma ResetKeeps(hasArena: bool, depth: nat, st: C.State)
    requires Valid(st.mem) && !st.mem.failed
    ensures var st1 := Reset(hasArena, depth, st);
            && st1.vars == st.vars && Extends(st.mem, st1.mem) && Valid(st1.mem) && !st1.mem.failed
            && forall n: nat :: Overruns(st1.mem, n) <==> Overruns(st.mem, n)
  {
  }
}
