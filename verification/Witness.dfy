/** A valid module: the hypotheses of the main results are met by a function with
    a loop, a branch, checked arithmetic and a recursive call. */
module Witness {
  import opened Options
  import opened Mncs
  import opened Emit
  import opened Naming
  import opened Envelope
  import opened Exactness
  import opened Validation
  import opened Blocks
  import opened SequenceSimulation
  import opened Availability
  import opened Refinement
  import Represent
  import Words
  import Entry
  import Emitter
  import C = CLang

  const WORD: Ty := TInt(B32, true)

  function EntryBlock(): Block { Block("entry", [], [], Jump("head", ["n"])) }

  function HeadBlock(): Block {
    Block("head", [Val("x", WORD)],
      [Const(Val("zero", WORD), 0), Compare(Val("more", TBool), PGt, B32, true, "x", "zero")],
      Branch("more", "body", ["x"], "exit", []))
  }

  function BodyBlock(): Block {
    Block("body", [Val("y", WORD)],
      [Const(Val("one", WORD), 1), Integer(Val("less", WORD), OpSub, Checked, false, "y", "one")],
      Jump("head", ["less"]))
  }

  function ExitBlock(): Block {
    Block("exit", [], [Call(Val("again", WORD), "down", ["zero"])], Return("again"))
  }

  /** Counts its argument down to zero, then calls itself with zero. */
  function Down(): Function {
    Function("down", [Val("n", WORD)], WORD, [EntryBlock(), HeadBlock(), BodyBlock(), ExitBlock()])
  }

  function Doms(): map<Id, set<Id>> {
    map["entry" := {"entry"}, "head" := {"entry", "head"}, "body" := {"entry", "head", "body"}, "exit" := {"entry", "head", "exit"}]
  }

  function Sample(): Module { map["down" := Down()] }

  // ---------- Definitions ----------

  /** The definitions of a list of plain instructions, one at a time. */
  lemma DestsCons(inst: Inst, rest: seq<Inst>)
    requires Source(inst) && (inst.SequenceConstruct? ==> inst.dest.ty.TSeq?)
    ensures Dests(Flatten(LowerAll([inst] + rest))) == [inst.dest] + Dests(Flatten(LowerAll(rest)))
  {
    var all := LowerAll([inst] + rest);
    assert all[0] == Lower(inst) && all[1..] == LowerAll(rest);
    FlattenOne(all[0]);
    DestsAppend(Flatten([all[0]]), Flatten(all[1..]));
    LoweredDefines(inst);
  }

  lemma PairVals(b: Block, i: Inst, j: Inst)
    requires b.insts == [i, j] && Source(i) && Source(j) && !i.SequenceConstruct? && (j.SequenceConstruct? ==> j.dest.ty.TSeq?)
    ensures BlockVals(b) == b.params + [i.dest, j.dest]
  {
    hide Lower, Flatten;
    NoVals();
    DestsCons(j, []);
    DestsCons(i, [j]);
    assert [i, j] == [i] + [j] && [j] + [] == [j];
  }

  lemma NoVals()
    ensures Dests(Flatten(LowerAll([]))) == []
  {
  }

  lemma SampleVals()
    ensures BlockVals(EntryBlock()) == [] && BlockVals(ExitBlock()) == [Val("again", WORD)]
    ensures BlockVals(HeadBlock()) == [Val("x", WORD), Val("zero", WORD), Val("more", TBool)]
    ensures BlockVals(BodyBlock()) == [Val("y", WORD), Val("one", WORD), Val("less", WORD)]
  {
    NoVals();
    PairVals(HeadBlock(), HeadBlock().insts[0], HeadBlock().insts[1]);
    PairVals(BodyBlock(), BodyBlock().insts[0], BodyBlock().insts[1]);
    DestsCons(ExitBlock().insts[0], []);
    assert ExitBlock().insts == [ExitBlock().insts[0]] + [];
  }

  lemma IdsOne(a: Val)
    ensures IdSet([a]) == {a.id}
  {
    assert [a][0].id in IdSet([a]);
  }

  lemma IdsThree(a: Val, b: Val, c: Val)
    ensures IdSet([a, b, c]) == {a.id, b.id, c.id}
  {
    var s := [a, b, c];
    assert s[0].id in IdSet(s) && s[1].id in IdSet(s) && s[2].id in IdSet(s);
  }

  lemma SampleDefs()
    ensures DefsOf(EntryBlock()) == {} && DefsOf(ExitBlock()) == {"again"}
    ensures DefsOf(HeadBlock()) == {"x", "zero", "more"} && DefsOf(BodyBlock()) == {"y", "one", "less"}
    ensures IdSet(Down().params) == {"n"} && IdSet(EntryBlock().params) == {} && IdSet(ExitBlock().params) == {}
    ensures IdSet(HeadBlock().params) == {"x"} && IdSet(BodyBlock().params) == {"y"}
  {
    hide BlockVals;
    SampleVals();
    IdsOne(Val("again", WORD));
    IdsOne(Val("n", WORD));
    IdsOne(Val("x", WORD));
    IdsOne(Val("y", WORD));
    IdsThree(Val("x", WORD), Val("zero", WORD), Val("more", TBool));
    IdsThree(Val("y", WORD), Val("one", WORD), Val("less", WORD));
  }

  function SampleIds(): seq<Id> { ["n", "x", "zero", "more", "y", "one", "less", "again"] }

  function SampleAll(): seq<Val> {
    [Val("n", WORD), Val("x", WORD), Val("zero", WORD), Val("more", TBool), Val("y", WORD), Val("one", WORD), Val("less", WORD), Val("again", WORD)]
  }

  lemma FourBlocks(a: Block, b: Block, c: Block, d: Block)
    ensures BlocksVals([a, b, c, d]) == BlockVals(a) + (BlockVals(b) + (BlockVals(c) + BlockVals(d)))
  {
    hide BlockVals;
    assert [a, b, c, d][1..] == [b, c, d] && [b, c, d][1..] == [c, d] && [c, d][1..] == [d] && [d][1..] == [];
    assert BlocksVals([d]) == BlockVals(d) + BlocksVals([]);
    assert BlocksVals([c, d]) == BlockVals(c) + BlocksVals([d]);
    assert BlocksVals([b, c, d]) == BlockVals(b) + BlocksVals([c, d]);
  }

  lemma SampleUnique()
    ensures AllVals(Down()) == SampleAll() && IdsOf(AllVals(Down())) == SampleIds() && Distinct(IdsOf(AllVals(Down())))
  {
    hide BlockVals, EntryBlock, HeadBlock, BodyBlock, ExitBlock;
    SampleVals();
    FourBlocks(EntryBlock(), HeadBlock(), BodyBlock(), ExitBlock());
    UniqueIds();
  }

  lemma UniqueIds()
    ensures Distinct(SampleIds())
  {
    var ids := SampleIds();
    assert ids[0] == "n" && ids[1] == "x" && ids[2] == "zero" && ids[3] == "more";
    assert ids[4] == "y" && ids[5] == "one" && ids[6] == "less" && ids[7] == "again";
    assert |"n"| == 1 && |"x"| == 1 && |"y"| == 1 && |"zero"| == 4 && |"more"| == 4 && |"less"| == 4 && |"one"| == 3 && |"again"| == 5;
    assert "n"[0] != "x"[0] && "n"[0] != "y"[0] && "x"[0] != "y"[0];
    assert "zero"[0] != "more"[0] && "zero"[0] != "less"[0] && "more"[0] != "less"[0];
  }

  // ---------- Types and availability ----------

  lemma SampleTypes()
    ensures var t := TypesOf(Down());
      && Typed(t, "n", WORD) && Typed(t, "x", WORD) && Typed(t, "zero", WORD) && Typed(t, "more", TBool)
      && Typed(t, "y", WORD) && Typed(t, "one", WORD) && Typed(t, "less", WORD) && Typed(t, "again", WORD)
  {
    hide AllVals, Down;
    SampleUnique();
    Entry.TypesSound(AllVals(Down()));
    var vs := SampleAll();
    assert vs[0] in vs && vs[1] in vs && vs[2] in vs && vs[3] in vs && vs[4] in vs && vs[5] in vs && vs[6] in vs && vs[7] in vs;
  }

  /** What `x` contributes to what `b` may rely on. */
  function Share(x: Block, b: Block, dom: map<Id, set<Id>>): set<Id> {
    if x.id != b.id && b.id in dom && x.id in dom[b.id] then DefsOf(x) else {}
  }

  lemma HaveFour(f: Function, dom: map<Id, set<Id>>, b: Block)
    requires |f.blocks| == 4
    ensures Have(f, dom, b) == IdSet(f.params) + IdSet(b.params)
      + Share(f.blocks[0], b, dom) + Share(f.blocks[1], b, dom) + Share(f.blocks[2], b, dom) + Share(f.blocks[3], b, dom)
  {
    hide DefsOf, IdSet;
  }

  /** The four shares of a block, and what they add up to. */
  lemma HaveIs(b: Block, own: set<Id>, a0: set<Id>, a1: set<Id>, a2: set<Id>, a3: set<Id>)
    requires IdSet(b.params) == own
    requires Share(EntryBlock(), b, Doms()) == a0 && Share(HeadBlock(), b, Doms()) == a1
    requires Share(BodyBlock(), b, Doms()) == a2 && Share(ExitBlock(), b, Doms()) == a3
    ensures Have(Down(), Doms(), b) == {"n"} + own + a0 + a1 + a2 + a3
  {
    hide Share, Have, Doms;
    SampleDefs();
    SampleParams();
    HaveFour(Down(), Doms(), b);
  }

  /** What each block may rely on. */
  lemma SampleHave()
    ensures Have(Down(), Doms(), EntryBlock()) == {"n"}
    ensures Have(Down(), Doms(), HeadBlock()) == {"n", "x"}
    ensures Have(Down(), Doms(), BodyBlock()) == {"n", "y", "x", "zero", "more"}
    ensures Have(Down(), Doms(), ExitBlock()) == {"n", "x", "zero", "more"}
  {
    hide Have, DefsOf, IdSet, Down, Doms;
    SampleDefs();
    Shares();
    HaveIs(EntryBlock(), {}, {}, {}, {}, {});
    HaveIs(HeadBlock(), {"x"}, {}, {}, {}, {});
    HaveIs(BodyBlock(), {"y"}, {}, {"x", "zero", "more"}, {}, {});
    HaveIs(ExitBlock(), {}, {}, {"x", "zero", "more"}, {}, {});
  }

  lemma Shares()
    ensures forall b | b in [EntryBlock(), HeadBlock(), BodyBlock(), ExitBlock()] ::
      Share(EntryBlock(), b, Doms()) == {} && Share(BodyBlock(), b, Doms()) == {} && Share(ExitBlock(), b, Doms()) == {}
    ensures Share(HeadBlock(), EntryBlock(), Doms()) == {} && Share(HeadBlock(), HeadBlock(), Doms()) == {}
    ensures Share(HeadBlock(), BodyBlock(), Doms()) == {"x", "zero", "more"} && Share(HeadBlock(), ExitBlock(), Doms()) == {"x", "zero", "more"}
  {
    hide DefsOf;
    SampleDefs();
    DomEdges();
    BlockNames();
    hide Doms;
    BlockIds();
  }

  lemma BlockIds()
    ensures EntryBlock().id == "entry" && HeadBlock().id == "head" && BodyBlock().id == "body" && ExitBlock().id == "exit"
  {
  }

  lemma BlockNames()
    ensures "entry" != "head" && "entry" != "body" && "entry" != "exit" && "head" != "body" && "head" != "exit" && "body" != "exit"
  {
    assert "entry"[0] == 'e' && "head"[0] == 'h' && "body"[0] == 'b' && "exit"[0] == 'e' && |"entry"| == 5 && |"exit"| == 4;
  }

  // ---------- Validity ----------

  lemma SampleFinds()
    ensures FindBlock(Down().blocks, "head") == Option.Some(1) && FindBlock(Down().blocks, "body") == Option.Some(2)
    ensures FindBlock(Down().blocks, "exit") == Option.Some(3)
    ensures forall i, j | 0 <= i < j < |Down().blocks| :: Down().blocks[i].id != Down().blocks[j].id
  {
    BlockNames();
    var bs := Down().blocks;
    assert bs[1..] == [HeadBlock(), BodyBlock(), ExitBlock()] && bs[1..][1..] == [BodyBlock(), ExitBlock()] && bs[1..][1..][1..] == [ExitBlock()];
    Emitter.TableFinds(bs, "head", 1);
    Emitter.TableFinds(bs, "body", 2);
    Emitter.TableFinds(bs, "exit", 3);
  }

  lemma TwoOk(m: Module, types: Types, have: set<Id>, i: Inst, j: Inst)
    requires WellTyped(m, types, i) && Available(Uses(i), have) && i.dest.id !in have
    requires WellTyped(m, types, j) && Available(Uses(j), have + {i.dest.id}) && j.dest.id !in have + {i.dest.id}
    ensures InstsOk(m, types, have, [i, j]) && HaveAfter(have, [i, j]) == have + {i.dest.id} + {j.dest.id}
  {
    hide WellTyped, Uses;
    assert [i, j][1..] == [j] && [j][1..] == [];
    SourceTyped(m, types, i);
    SourceTyped(m, types, j);
    assert InstsOk(m, types, have + {i.dest.id} + {j.dest.id}, []);
    assert InstsOk(m, types, have + {i.dest.id}, [j]);
    assert HaveAfter(have + {i.dest.id}, [j]) == HaveAfter(have + {i.dest.id} + {j.dest.id}, []);
  }

  lemma HeadOk()
    ensures BlockOk(Sample(), Down(), Doms(), HeadBlock())
  {
    hide TypesOf, Have, Down;
    SampleHave();
    SampleTypes();
    SampleFinds();
    UniqueIds();
    var t, b, have := TypesOf(Down()), HeadBlock(), Have(Down(), Doms(), HeadBlock());
    SampleNames();
    TwoOk(Sample(), t, have, b.insts[0], b.insts[1]);
    assert b.insts == [b.insts[0], b.insts[1]];
    SampleParams();
    DomEdges();
  }

  lemma SampleNames()
    ensures "zero" !in {"n", "x"} && "more" !in {"n", "x", "zero"}
    ensures "one" !in {"n", "y", "x", "zero", "more"} && "less" !in {"n", "y", "x", "zero", "more", "one"}
    ensures "again" !in {"n", "x", "zero", "more"}
  {
    UniqueIds();
    var ids := SampleIds();
    assert ids[0] == "n" && ids[1] == "x" && ids[2] == "zero" && ids[3] == "more";
    assert ids[4] == "y" && ids[5] == "one" && ids[6] == "less" && ids[7] == "again";
  }

  lemma SampleParams()
    ensures Down().blocks == [EntryBlock(), HeadBlock(), BodyBlock(), ExitBlock()]
    ensures Down().result == WORD && Down().params == [Val("n", WORD)]
  {
  }

  lemma DomEdges()
    ensures var d := Doms();
      && "entry" in d && "head" in d && "body" in d && "exit" in d
      && d["entry"] == {"entry"} && d["head"] == {"entry", "head"} && d["body"] == {"entry", "head", "body"} && d["exit"] == {"entry", "head", "exit"}
  {
    BlockNames();
  }

  lemma BodyOk()
    ensures BlockOk(Sample(), Down(), Doms(), BodyBlock())
  {
    hide TypesOf, Have, Down, Doms, HaveAfter, InstsOk;
    SampleHave();
    SampleTypes();
    SampleNames();
    var t, b, have := TypesOf(Down()), BodyBlock(), Have(Down(), Doms(), BodyBlock());
    TwoOk(Sample(), t, have, b.insts[0], b.insts[1]);
    assert b.insts == [b.insts[0], b.insts[1]];
    BodyEdge(t, HaveAfter(have, b.insts));
  }

  lemma BodyEdge(t: Types, have: set<Id>)
    requires "less" in have && Typed(t, "less", WORD)
    ensures EdgeOk(Down(), Doms(), t, have, "body", "head", ["less"])
  {
    SampleFinds();
    SampleParams();
    DomEdges();
  }

  lemma EntryOk()
    ensures BlockOk(Sample(), Down(), Doms(), EntryBlock())
  {
    hide TypesOf, Have, Down;
    SampleHave();
    SampleTypes();
    SampleFinds();
    SampleParams();
    DomEdges();
  }

  lemma ExitOk()
    ensures BlockOk(Sample(), Down(), Doms(), ExitBlock())
  {
    hide TypesOf, Have;
    SampleHave();
    SampleTypes();
    SampleNames();
    var b := ExitBlock();
    assert b.insts[1..] == [];
    assert InstsOk(Sample(), TypesOf(Down()), Have(Down(), Doms(), b) + {"again"}, []);
  }

  lemma SampleValid()
    ensures ModuleOk(Sample()) && FaithfulModule(Sample())
  {
    hide BlockOk, TypesOf, HeadBlock, BodyBlock, EntryBlock, ExitBlock, AllVals;
    SampleUnique();
    SampleFinds();
    HeadOk();
    BodyOk();
    EntryOk();
    ExitOk();
    SampleParams();
    FirstBlock();
    DomEdges();
    assert FunctionOk(Sample(), Down(), Doms());
    SampleFaithful();
  }

  lemma FirstBlock()
    ensures EntryBlock().params == [] && EntryBlock().id == "entry"
  {
  }

  lemma SampleFaithful()
    ensures FaithfulModule(Sample())
  {
    assert FaithfulFunction(Down(), {});
  }

  // ---------- Requests ----------

  /** A module loaded afresh. */
  function Fresh(): C.Memory { C.Memory(seq(C.ARENA_BYTES, _ => 0), 0, false, false, 0, 0) }

  lemma FreshValid()
    ensures Represent.Valid(Fresh()) && !Fresh().failed
  {
  }

  /** The sample meets every hypothesis of the main results, for every argument
      and budget. */
  lemma SampleRequest(k: int, budget: nat)
    requires InRange(k, B32, true) && budget <= MAX_CALL_DEPTH
    ensures Request(Sample(), "down", [IntV(k)], [k], budget, Fresh()) && FaithfulModule(Sample())
  {
    hide ModuleOk, FaithfulModule, Fresh;
    SampleValid();
    FreshValid();
    Words.WrapFixes(k, Words.TWO_32, true);
  }
}
