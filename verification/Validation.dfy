/** What the validator demands of a function, and the order in which a transfer
    may pass parameters. */
module Validation {
  import opened Mncs
  import opened Emit
  import opened Naming
  import opened Envelope

  // ---------- Definitions ----------

  function TypesOfVals(vals: seq<Val>): Types {
    if vals == [] then map[] else TypesOfVals(vals[..|vals| - 1])[vals[|vals| - 1].id := vals[|vals| - 1].ty]
  }

  function TypesOf(f: Function): Types { TypesOfVals(AllVals(f)) }

  /** The ids a block defines. */
  function DefsOf(b: Block): set<Id> { IdSet(BlockVals(b)) }

  /** The ids every run has bound on entering a block: the function's parameters,
      the block's own, and whatever its strict dominators define. */
  function Have(f: Function, dom: map<Id, set<Id>>, b: Block): set<Id> {
    IdSet(f.params) + IdSet(b.params)
    + set k, i | 0 <= k < |f.blocks| && f.blocks[k].id != b.id && b.id in dom && f.blocks[k].id in dom[b.id] && i in DefsOf(f.blocks[k]) :: i
  }

  // ---------- Instructions and terminators ----------

  /** Operands are available in order, and every instruction is well typed. */
  predicate InstsOk(m: Module, types: Types, have: set<Id>, insts: seq<Inst>)
    decreases |insts|
  {
    insts == [] || (
      && WellTyped(m, types, insts[0])
      && Available(Uses(insts[0]), have)
      && insts[0].dest.id !in have
      && InstsOk(m, types, have + {insts[0].dest.id}, insts[1..]))
  }

  function HaveAfter(have: set<Id>, insts: seq<Inst>): set<Id>
    decreases |insts|
  {
    if insts == [] then have
    else HaveAfter(if Dest(insts[0]).Some? then have + {insts[0].dest.id} else have, insts[1..])
  }

  /** A parameter overwritten by the transfer is not read by a later argument,
      unless it was passed to itself. */
  predicate Ordered(params: seq<Val>, args: seq<Id>) {
    forall i, j | 0 <= i < j < |args| && j < |params| && args[j] == params[i].id :: args[i] == params[i].id
  }

  predicate EdgeOk(f: Function, dom: map<Id, set<Id>>, types: Types, have: set<Id>, from: Id, target: Id, args: seq<Id>) {
    var k := FindBlock(f.blocks, target);
    && k.Some? && k.value < |f.blocks|
    && var params := f.blocks[k.value].params;
       && |params| == |args|
       && Available(args, have)
       && (forall i | 0 <= i < |args| :: Typed(types, args[i], params[i].ty))
       && Ordered(params, args)
       && target in dom && from in dom && dom[target] - {target} <= dom[from]
  }

  predicate TermOk(f: Function, dom: map<Id, set<Id>>, types: Types, have: set<Id>, from: Id, term: Term) {
    match term
    case Return(v) => v in have && Typed(types, v, f.result)
    case Jump(t, args) => EdgeOk(f, dom, types, have, from, t, args)
    case Branch(c, t, targs, e, eargs) =>
      && c in have && Typed(types, c, TBool)
      && EdgeOk(f, dom, types, have, from, t, targs)
      && EdgeOk(f, dom, types, have, from, e, eargs)
    case Fail => true
  }

  predicate BlockOk(m: Module, f: Function, dom: map<Id, set<Id>>, b: Block) {
    var have := Have(f, dom, b);
    && InstsOk(m, TypesOf(f), have, b.insts)
    && TermOk(f, dom, TypesOf(f), HaveAfter(have, b.insts), b.id, b.term)
  }

  /** `dom` is any solution of the dominator equations; the entry block takes no
      parameters and has no strict dominator. */
  predicate FunctionOk(m: Module, f: Function, dom: map<Id, set<Id>>) {
    && Distinct(IdsOf(AllVals(f)))
    && f.blocks != [] && f.blocks[0].params == []
    && (forall i, j | 0 <= i < j < |f.blocks| :: f.blocks[i].id != f.blocks[j].id)
    && f.blocks[0].id in dom && dom[f.blocks[0].id] <= {f.blocks[0].id}
    && forall k | 0 <= k < |f.blocks| :: BlockOk(m, f, dom, f.blocks[k])
  }

  ghost predicate ModuleOk(m: Module) { forall n | n in m :: exists dom :: FunctionOk(m, m[n], dom) }
}
