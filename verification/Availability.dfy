/** Dominance at work: whatever a block may read is bound on every run that
    reaches it. */
module Availability {
  import opened Mncs
  import opened Emit
  import opened Envelope
  import opened Interpreter
  import opened Validation
  import opened SequenceSimulation
  import opened Blocks
  import opened Entry

  lemma {:induction false} DestsAppend(a: seq<Inst>, b: seq<Inst>)
    ensures Dests(a + b) == Dests(a) + Dests(b)
  {
    if a == [] {
      assert a + b == b;
    } else {
      assert (a + b)[0] == a[0] && (a + b)[1..] == a[1..] + b;
      DestsAppend(a[1..], b);
    }
  }

  lemma {:induction false} StoresDefine(cell: Id, inputs: seq<Id>, w: SlotWidth, k: nat)
    requires k <= |inputs|
    ensures Dests(LowerStores(cell, inputs, w, k)) == []
    decreases |inputs| - k
  {
    if k < |inputs| {
      StoresDefine(cell, inputs, w, k + 1);
      var stores := LowerStores(cell, inputs, w, k);
      assert stores[1..] == LowerStores(cell, inputs, w, k + 1);
    }
  }

  /** Lowering keeps an instruction's one definition. */
  lemma LoweredDefines(inst: Inst)
    requires Source(inst) && (inst.SequenceConstruct? ==> inst.dest.ty.TSeq?)
    ensures Dests(Flatten([Lower(inst)])) == [inst.dest]
  {
    FlattenOne(Lower(inst));
    if inst.SequenceConstruct? {
      var stores := LowerStores(inst.dest.id, inst.inputs, SlotWidthOf(inst.dest.ty.elem), 0);
      var alloc := CellAlloc(inst.dest, |inst.inputs| * 8);
      StoresPlain(map[], inst.dest.id, inst.inputs, SlotWidthOf(inst.dest.ty.elem), 0, "");
      StoresDefine(inst.dest.id, inst.inputs, SlotWidthOf(inst.dest.ty.elem), 0);
      assert ([alloc] + stores)[1..] == stores;
      assert Flatten([alloc] + stores) == [alloc] + stores;
    } else {
      assert [inst][1..] == [];
    }
  }

  lemma {:induction false} AfterDefines(m: Module, types: Types, have: set<Id>, insts: seq<Inst>)
    requires InstsOk(m, types, have, insts)
    ensures have <= HaveAfter(have, insts)
    ensures forall v | v in Dests(Flatten(LowerAll(insts))) :: v.id in HaveAfter(have, insts)
    decreases |insts|
  {
    if insts != [] {
      hide WellTyped, Uses, Lower;
      SourceTyped(m, types, insts[0]);
      var all, next := LowerAll(insts), have + {insts[0].dest.id};
      AfterDefines(m, types, next, insts[1..]);
      assert all[0] == Lower(insts[0]) && all[1..] == LowerAll(insts[1..]);
      FlattenOne(all[0]);
      DestsAppend(Flatten([all[0]]), Flatten(all[1..]));
      LoweredDefines(insts[0]);
    }
  }

  lemma SourceTyped(m: Module, types: Types, inst: Inst)
    requires WellTyped(m, types, inst)
    ensures Source(inst) && Dest(inst).Some? && (inst.SequenceConstruct? ==> inst.dest.ty.TSeq?)
  {
  }

  /** Along an edge, the target's values are those the source block leaves, plus
      the target's own parameters. */
  lemma EdgeHave(m: Module, f: Function, dom: map<Id, set<Id>>, k: nat, target: Id, args: seq<Id>, t: nat)
    requires FunctionOk(m, f, dom) && k < |f.blocks| && t < |f.blocks| && f.blocks[t].id == target
    requires EdgeOk(f, dom, TypesOf(f), HaveAfter(Have(f, dom, f.blocks[k]), f.blocks[k].insts), f.blocks[k].id, target, args)
    ensures Have(f, dom, f.blocks[t]) <= HaveAfter(Have(f, dom, f.blocks[k]), f.blocks[k].insts) + IdSet(f.blocks[t].params)
  {
    hide TypesOf, InstsOk, TermOk;
    var b := f.blocks[k];
    var have := Have(f, dom, b);
    assert BlockOk(m, f, dom, b);
    AfterDefines(m, TypesOf(f), have, b.insts);
    forall i | i in Have(f, dom, f.blocks[t])
      ensures i in HaveAfter(have, b.insts) + IdSet(f.blocks[t].params)
    {
      if i !in IdSet(f.params) && i !in IdSet(f.blocks[t].params) {
        var j :| 0 <= j < |f.blocks| && f.blocks[j].id != target && f.blocks[j].id in dom[target] && i in DefsOf(f.blocks[j]);
        assert f.blocks[j].id in dom[b.id];
        if f.blocks[j].id == b.id {
          assert j == k;
          var v :| v in BlockVals(b) && v.id == i;
          BlockDefines(b, v, have, i);
        } else {
          assert i in have;
        }
      }
    }
  }

  lemma BlockDefines(b: Block, v: Val, have: set<Id>, i: Id)
    requires v in BlockVals(b) && v.id == i
    requires IdSet(b.params) <= have <= HaveAfter(have, b.insts)
    requires forall w | w in Dests(Flatten(LowerAll(b.insts))) :: w.id in HaveAfter(have, b.insts)
    ensures i in HaveAfter(have, b.insts)
  {
    if v in b.params {
      assert v.id in IdSet(b.params);
    }
  }

  lemma {:induction false} FindsBlock(bs: seq<Block>, id: Id)
    ensures FindBlock(bs, id).Some? ==> FindBlock(bs, id).value < |bs| && bs[FindBlock(bs, id).value].id == id
  {
    if bs != [] && bs[0].id != id {
      FindsBlock(bs[1..], id);
    }
  }

  /** A landed jump has bound everything its target may read. */
  lemma TransferHave(m: Module, f: Function, dom: map<Id, set<Id>>, k: nat, target: Id, args: seq<Id>, env: Env)
    requires FunctionOk(m, f, dom) && k < |f.blocks|
    requires EdgeOk(f, dom, TypesOf(f), HaveAfter(Have(f, dom, f.blocks[k]), f.blocks[k].insts), f.blocks[k].id, target, args)
    requires HaveAfter(Have(f, dom, f.blocks[k]), f.blocks[k].insts) <= env.Keys && Transfer(f, env, target, args).At?
    ensures var to := Transfer(f, env, target, args);
            to.index < |f.blocks| && Have(f, dom, f.blocks[to.index]) <= to.env.Keys
  {
    hide HaveAfter, Have, EdgeOk, FunctionOk;
    FindsBlock(f.blocks, target);
    var t := FindBlock(f.blocks, target).value;
    EdgeHave(m, f, dom, k, target, args, t);
    BindAllKeys(env, f.blocks[t].params, Lookup(args, env));
  }

  lemma TermHave(m: Module, f: Function, dom: map<Id, set<Id>>, k: nat, env: Env)
    requires FunctionOk(m, f, dom) && k < |f.blocks|
    requires HaveAfter(Have(f, dom, f.blocks[k]), f.blocks[k].insts) <= env.Keys
    ensures var o := Terminate(f, f.blocks[k].term, env);
            o.GoesTo? ==> o.index < |f.blocks| && Have(f, dom, f.blocks[o.index]) <= o.env.Keys
  {
    hide HaveAfter, Have, EdgeOk, Transfer, TypesOf;
    assert BlockOk(m, f, dom, f.blocks[k]);
    match f.blocks[k].term
    case Jump(t, args) =>
      if Transfer(f, env, t, args).At? {
        TransferHave(m, f, dom, k, t, args, env);
      }
    case Branch(c, t, targs, e, eargs) =>
      if IsBool(env, c) {
        if env[c].b {
          if Transfer(f, env, t, targs).At? {
            TransferHave(m, f, dom, k, t, targs, env);
          }
        } else if Transfer(f, env, e, eargs).At? {
          TransferHave(m, f, dom, k, e, eargs, env);
        }
      }
    case _ =>
  }

  /** The entry block needs the parameters alone. */
  lemma EntryHave(m: Module, f: Function, dom: map<Id, set<Id>>, args: seq<Value>)
    requires FunctionOk(m, f, dom) && |args| == |f.params|
    ensures Have(f, dom, f.blocks[0]) <= BindAll(map[], f.params, args).Keys
  {
    hide BlockOk, TypesOf;
    BindAllKeys(map[], f.params, args);
  }

  /** An instruction list binds its destinations, whatever it computes. */
  lemma {:induction false} RunHave(m: Module, types: Types, have: set<Id>, insts: seq<Inst>, env: Env, depth: nat, limit: nat, fuel: nat)
    requires InstsOk(m, types, have, insts) && have <= env.Keys
    ensures RunInsts(m, insts, env, depth, limit, fuel).Done? ==> HaveAfter(have, insts) <= RunInsts(m, insts, env, depth, limit, fuel).env.Keys
    decreases |insts|
  {
    if insts != [] {
      hide WellTyped, Uses, Evaluate, InEnvelope, RunFunction;
      SourceTyped(m, types, insts[0]);
      var first := RunInst(m, insts[0], env, depth, limit, fuel);
      if first.Done? {
        RunHave(m, types, have + {insts[0].dest.id}, insts[1..], first.env, depth, limit, fuel);
      }
    }
  }
}
