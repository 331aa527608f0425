/** Which instructions agree with the reference executor on all operands, and
    why a module built from those alone always does. */
module Exactness {
  import opened Words
  import opened Mncs
  import opened Emit
  import opened IntegerLowering
  import opened Envelope
  import opened Interpreter
  import opened Validation
  import opened Transfers
  import opened Entry
  import opened Availability
  import opened ViewSimulation
  import ScalarSimulation
  import Simulation

  // ---------- Operations that are exact on all operands ----------

  predicate FaithfulInteger(op: IntOp, b: IntWidth, signed: bool, intent: Intent, permitted: bool) {
    match op
    case OpAnd | OpOr | OpXor => true
    case OpShl | OpShr => !signed
    case OpDiv => !intent.Saturating? && (intent.Wrapping? ==> !signed)
    case OpMod => !intent.Saturating?
    case _ =>
      if intent.Saturating? then signed || !op.OpSub?
      else if intent.Wrapping? then !(signed && (b.B8? || b.B16?))
      else !permitted
  }

  /** Operands on which an unfaithful operation goes wrong. */
  lemma SpoilerFor(op: IntOp, b: IntWidth, signed: bool, intent: Intent, permitted: bool) returns (l: int, r: int)
    requires OperatorSupported(op, intent) && !FaithfulInteger(op, b, signed, intent, permitted)
    ensures InRange(l, b, signed) && InRange(r, b, signed) && !IntegerEnvelope(op, b, signed, intent, permitted, l, r)
  {
    hide Wrap, Pow2, ShiftedLeft;
    var h := Maximum(b, signed);
    match op
    case OpShl => l, r := 0, -1;
    case OpShr => l, r := 0, -1;
    case OpDiv =>
      if intent.Saturating? { l, r := 0, 0; } else { l, r := Minimum(b, true), -1; }
    case OpMod => l, r := 0, 0;
    case OpAdd =>
      if intent.Wrapping? { l, r := -1, 0; NegativeResidue(b); } else { l, r := h, 1; }
    case OpSub =>
      if intent.Wrapping? { l, r := 0, 1; NegativeResidue(b); }
      else { l, r := Minimum(b, signed), 1; }
    case OpMul =>
      if intent.Wrapping? { l, r := -1, 1; NegativeResidue(b); } else { l, r := h, 2; }
  }

  lemma NegativeResidue(b: IntWidth)
    ensures -1 % IntModulus(b) == IntModulus(b) - 1
  {
  }

  /** An operation's code is right on all operands exactly when it is faithful. */
  lemma FaithfulIntegerExact(op: IntOp, b: IntWidth, signed: bool, intent: Intent, permitted: bool)
    requires OperatorSupported(op, intent)
    ensures FaithfulInteger(op, b, signed, intent, permitted) <==>
      forall l, r | InRange(l, b, signed) && InRange(r, b, signed) :: IntegerEnvelope(op, b, signed, intent, permitted, l, r)
  {
    hide Wrap, Pow2, ShiftedLeft;
    if !FaithfulInteger(op, b, signed, intent, permitted) {
      var l, r := SpoilerFor(op, b, signed, intent, permitted);
    }
  }

  predicate FaithfulConvert(from: IntWidth, fromSigned: bool, to: IntWidth, toSigned: bool) {
    && !(to.B64? && from.B32? && !fromSigned)
    && (to.B8? || to.B16? ==>
          (from.B8? || from.B16?) && Minimum(to, toSigned) <= Minimum(from, fromSigned) && Maximum(from, fromSigned) <= Maximum(to, toSigned))
  }

  lemma FaithfulConvertExact(from: IntWidth, fromSigned: bool, to: IntWidth, toSigned: bool)
    ensures FaithfulConvert(from, fromSigned, to, toSigned) <==>
      forall n | InRange(n, from, fromSigned) :: ConvertEnvelope(from, fromSigned, to, toSigned, n)
  {
    hide Wrap;
    var lo, hi := Minimum(from, fromSigned), Maximum(from, fromSigned);
    if to.B64? && from.B32? && !fromSigned {
      assert !ConvertEnvelope(from, fromSigned, to, toSigned, TWO_31);
    } else if to.B8? || to.B16? {
      NarrowConvert(from, fromSigned, to, toSigned);
    }
  }

  lemma NarrowConvert(from: IntWidth, fromSigned: bool, to: IntWidth, toSigned: bool)
    requires to.B8? || to.B16?
    ensures FaithfulConvert(from, fromSigned, to, toSigned) <==>
      forall n | InRange(n, from, fromSigned) :: ConvertEnvelope(from, fromSigned, to, toSigned, n)
  {
    hide Wrap;
    var lo, hi := Minimum(from, fromSigned), Maximum(from, fromSigned);
    if from.B8? || from.B16? {
      forall n | InRange(n, from, fromSigned)
        ensures Wrap(n, TWO_32, true) == n
      {
        WrapFixes(n, TWO_32, true);
      }
      assert InRange(lo, from, fromSigned) && InRange(hi, from, fromSigned);
      assert ConvertEnvelope(from, fromSigned, to, toSigned, lo) <==> InRange(lo, to, toSigned);
      assert ConvertEnvelope(from, fromSigned, to, toSigned, hi) <==> InRange(hi, to, toSigned);
    } else {
      WrapFixes(0x1_0000, TWO_32, true);
      assert InRange(0x1_0000, from, fromSigned);
      assert !ConvertEnvelope(from, fromSigned, to, toSigned, 0x1_0000);
    }
  }

  /** No length and no capacity make view construction right on all ranges: each
      lets a bad one through, or is undefined on it. */
  lemma NoFaithfulView(n: nat, cap: nat)
    ensures exists start, end | 0 <= start < TWO_64 && 0 <= end < TWO_64 :: BadRange(start, end, n, cap) && !ViewEnvelope(start, end, n, cap)
  {
    assert BadRange(TWO_63, 0, n, cap);
    assert !ViewEnvelope(TWO_63, 0, n, cap);
  }

  /** Instructions whose value stays below 2^63, from values in `low` that do:
      literals, checked indices, lengths, and choices between such. */
  predicate YieldsLow(inst: Inst, low: set<Id>) {
    match inst
    case Const(d, n) => d.ty == U64_TYPE && n < TWO_63
    case BoundCheck(_, _, _, _) => true
    case SequenceLength(_, _, _) => true
    case Select(d, _, t, f) => t in low && f in low
    case _ => false
  }

  /** `low` is closed: it holds no parameter of the function, its instructions stay
      below 2^63 given the rest of it, and every edge to a block passes its own ids
      for the block's parameters that it holds. Loop counters may be among these. */
  predicate LowOk(f: Function, low: set<Id>) {
    && (forall i | 0 <= i < |f.params| :: f.params[i].id !in low)
    && (forall k | 0 <= k < |f.blocks| :: PassesLow(f, f.blocks[k].term, low))
    && (forall k, i | 0 <= k < |f.blocks| && 0 <= i < |f.blocks[k].insts| :: DefinesLow(f.blocks[k].insts[i], low))
  }

  predicate PassesLow(f: Function, term: Term, low: set<Id>) {
    match term
    case Jump(t, args) => EdgeLow(f, t, args, low)
    case Branch(_, t, targs, e, eargs) => EdgeLow(f, t, targs, low) && EdgeLow(f, e, eargs, low)
    case _ => true
  }

  predicate EdgeLow(f: Function, target: Id, args: seq<Id>, low: set<Id>) {
    var k := FindBlock(f.blocks, target);
    k.Some? && k.value < |f.blocks| ==>
      forall i | 0 <= i < |args| && i < |f.blocks[k.value].params| && f.blocks[k.value].params[i].id in low :: args[i] in low
  }

  predicate DefinesLow(inst: Inst, low: set<Id>) { Dest(inst).Some? && inst.dest.id in low ==> YieldsLow(inst, low) }

  /** Instructions inside the envelope for all well-typed operands, a view's start
      being low. */
  predicate Faithful(inst: Inst, low: set<Id>) {
    match inst
    case Integer(d, op, intent, permitted, _, _) => d.ty.TInt? && FaithfulInteger(op, d.ty.bits, d.ty.signed, intent, permitted)
    case Convert(d, from, _) => from.TInt? && d.ty.TInt? ==> FaithfulConvert(from.bits, from.signed, d.ty.bits, d.ty.signed)
    case SequenceReplace(_, _, _, _, _, _, evidence) => evidence.RuntimeChecked?
    case SequenceCopy(_, _, _, _, _, _, _, evidence, _, _) => evidence.RuntimeChecked?
    case SequenceProject(_, _, _, _, evidence, _) => evidence.RuntimeChecked?
    case ViewConstruct(_, _, _, _, start, _) => start in low
    case _ => true
  }

  predicate FaithfulFunction(f: Function, low: set<Id>) {
    && LowOk(f, low)
    && forall k, i | 0 <= k < |f.blocks| && 0 <= i < |f.blocks[k].insts| :: Faithful(f.blocks[k].insts[i], low)
  }

  ghost predicate FaithfulModule(m: Module) { forall n | n in m :: exists low :: FaithfulFunction(m[n], low) }

  // ---------- Values keep their types ----------

  predicate IsLow(v: Value) { v.IntV? && v.n < TWO_63 }

  ghost predicate EnvTyped(types: Types, low: set<Id>, env: Env) {
    KeepsTypes(types, env) && forall i | i in env && i in low :: IsLow(env[i])
  }

  /** A faithful instruction on typed operands is inside its envelope. */
  lemma FaithfulInside(m: Module, types: Types, low: set<Id>, inst: Inst, env: Env)
    requires WellTyped(m, types, inst) && EnvTyped(types, low, env) && Available(Uses(inst), env.Keys) && Faithful(inst, low)
    ensures InEnvelope(inst, env)
  {
    hide IntegerEnvelope, ConvertEnvelope, FaithfulInteger, FaithfulConvert, HasType;
    match inst
    case Integer(d, op, intent, permitted, l, r) =>
      assert Uses(inst)[0] == l && Uses(inst)[1] == r;
      IntTyped(types, low, env, l, d.ty);
      IntTyped(types, low, env, r, d.ty);
      FaithfulIntegerExact(op, d.ty.bits, d.ty.signed, intent, permitted);
    case Convert(d, from, x) =>
      assert Uses(inst)[0] == x;
      if from.TInt? {
        IntTyped(types, low, env, x, from);
        FaithfulConvertExact(from.bits, from.signed, d.ty.bits, d.ty.signed);
      }
    case _ =>
  }

  lemma IntTyped(types: Types, low: set<Id>, env: Env, id: Id, ty: Ty)
    requires EnvTyped(types, low, env) && id in env && Typed(types, id, ty) && ty.TInt?
    ensures IsInt(env, id) && InRange(env[id].n, ty.bits, ty.signed)
  {
  }

  lemma SeqTyped(types: Types, low: set<Id>, env: Env, id: Id, e: Ty, bound: Bound)
    requires EnvTyped(types, low, env) && id in env && TypedSequence(types, id, e, bound)
    ensures IsSeq(env, id) && forall i | 0 <= i < |env[id].elems| :: HasType(env[id].elems[i], e)
    ensures bound.Exact? ==> |env[id].elems| == bound.len
    ensures bound.UpTo? ==> |env[id].elems| <= bound.cap
  {
  }

  /** What an instruction yields has its destination's type. */
  lemma YieldTyped(m: Module, types: Types, low: set<Id>, inst: Inst, env: Env)
    requires WellTyped(m, types, inst) && EnvTyped(types, low, env) && Available(Uses(inst), env.Keys)
    requires Evaluate(inst, env).Yields?
    ensures HasType(Evaluate(inst, env).v, inst.dest.ty)
    ensures YieldsLow(inst, low) ==> IsLow(Evaluate(inst, env).v)
  {
    hide EvaluateInteger, TruncDiv, Pow2, Bitwise, Wrap;
    match inst
    case Const(_, _) =>
    case Integer(d, op, intent, _, l, r) =>
      ScalarSimulation.IntegerResultInRange(op, d.ty.bits, d.ty.signed, intent, env[l].n, env[r].n);
    case Convert(d, _, x) =>
      if !env[x].SeqV? {
        ScalarSimulation.ConvertInRange(env[x], d.ty.bits, d.ty.signed);
      }
    case Select(_, c, t, f) =>
      assert Uses(inst)[1] == t && Uses(inst)[2] == f;
    case Compare(_, _, _, _, _, _) =>
    case Boolean(_, _, _, _) =>
    case BooleanCompare(_, _, _, _) =>
    case BooleanNot(_, _) =>
    case Call(_, _, _) =>
    case _ => SequenceYieldTyped(m, types, low, inst, env);
  }

  lemma UpdateYieldTyped(m: Module, types: Types, low: set<Id>, inst: Inst, env: Env)
    requires WellTyped(m, types, inst) && EnvTyped(types, low, env) && Available(Uses(inst), env.Keys)
    requires Evaluate(inst, env).Yields?
    requires inst.SequenceConstruct? || inst.SequenceReplace? || inst.SequenceCopy?
    ensures HasType(Evaluate(inst, env).v, inst.dest.ty)
  {
    match inst
    case SequenceConstruct(d, inputs) =>
      assert forall i | 0 <= i < |inputs| :: Uses(inst)[i] == inputs[i];
    case SequenceReplace(d, s, i, x, n, _, _) =>
      assert Uses(inst)[0] == s && Uses(inst)[2] == x;
      SeqTyped(types, low, env, s, d.ty.elem, Exact(n));
    case SequenceCopy(d, into, at, s, start, n, bound, _, dstLength, _) =>
      assert Uses(inst)[0] == into && Uses(inst)[2] == s;
      SeqTyped(types, low, env, into, d.ty.elem, Exact(dstLength));
      SeqTyped(types, low, env, s, d.ty.elem, bound);
  }

  lemma SequenceYieldTyped(m: Module, types: Types, low: set<Id>, inst: Inst, env: Env)
    requires WellTyped(m, types, inst) && EnvTyped(types, low, env) && Available(Uses(inst), env.Keys)
    requires Evaluate(inst, env).Yields?
    requires inst.SequenceConstruct? || inst.SequenceReplace? || inst.SequenceCopy? || inst.SequenceProject? || inst.SequenceLength?
          || inst.ViewConstruct? || inst.ViewNarrow? || inst.BoundCheck?
    ensures HasType(Evaluate(inst, env).v, inst.dest.ty)
    ensures YieldsLow(inst, low) ==> IsLow(Evaluate(inst, env).v)
  {
    match inst
    case SequenceConstruct(d, inputs) => UpdateYieldTyped(m, types, low, inst, env);
    case SequenceReplace(d, s, i, x, n, _, _) => UpdateYieldTyped(m, types, low, inst, env);
    case SequenceCopy(d, into, at, s, start, n, bound, _, dstLength, _) => UpdateYieldTyped(m, types, low, inst, env);
    case SequenceProject(d, s, i, bound, _, _) =>
      assert Uses(inst)[0] == s;
      SeqTyped(types, low, env, s, d.ty, bound);
    case SequenceLength(d, bound, s) =>
      assert Uses(inst)[0] == s;
      SeqTyped(types, low, env, s, ElementType(types[s]), bound);
    case ViewConstruct(d, bound, _, s, _, _) =>
      assert Uses(inst)[0] == s;
      SeqTyped(types, low, env, s, d.ty.elem, bound);
    case ViewNarrow(d, s, _) =>
      assert Uses(inst)[0] == s;
    case BoundCheck(d, s, i, _) =>
      assert Uses(inst)[0] == s && Uses(inst)[1] == i;
      SeqTyped(types, low, env, s, ElementType(types[s]), inst.bound);
  }

  /** Typed operands are never refused, only trapped on, inside the envelope. */
  lemma NeverBad(m: Module, types: Types, low: set<Id>, inst: Inst, env: Env)
    requires WellTyped(m, types, inst) && EnvTyped(types, low, env) && Available(Uses(inst), env.Keys) && !inst.Call?
    requires InEnvelope(inst, env)
    ensures !Evaluate(inst, env).Bad?
  {
    hide EvaluateInteger, IntegerEnvelope, ConvertEnvelope, ViewEnvelope;
    match inst
    case Integer(d, _, _, _, l, r) =>
      assert Uses(inst)[0] == l && Uses(inst)[1] == r;
    case Compare(_, _, _, _, l, r) =>
      assert Uses(inst)[0] == l && Uses(inst)[1] == r;
    case Boolean(_, _, l, r) =>
      assert Uses(inst)[0] == l && Uses(inst)[1] == r;
    case BooleanCompare(_, _, l, r) =>
      assert Uses(inst)[0] == l && Uses(inst)[1] == r;
    case BooleanNot(_, x) =>
      assert Uses(inst)[0] == x;
    case Convert(_, _, x) =>
      assert Uses(inst)[0] == x;
    case Select(_, c, t, f) =>
      assert Uses(inst)[0] == c && Uses(inst)[1] == t && Uses(inst)[2] == f;
    case SequenceConstruct(_, inputs) =>
      assert forall i | 0 <= i < |inputs| :: Uses(inst)[i] == inputs[i];
    case Const(_, _) =>
    case _ => SequenceNeverBad(m, types, low, inst, env);
  }

  lemma SequenceNeverBad(m: Module, types: Types, low: set<Id>, inst: Inst, env: Env)
    requires WellTyped(m, types, inst) && EnvTyped(types, low, env) && Available(Uses(inst), env.Keys) && InEnvelope(inst, env)
    requires inst.SequenceReplace? || inst.SequenceCopy? || inst.SequenceProject? || inst.SequenceLength? || inst.ViewConstruct? || inst.ViewNarrow? || inst.BoundCheck?
    ensures !Evaluate(inst, env).Bad?
  {
    hide IntegerEnvelope, ConvertEnvelope, ViewEnvelope, HasType;
    match inst
    case SequenceReplace(d, s, i, x, n, _, _) =>
      assert Uses(inst)[0] == s && Uses(inst)[1] == i && Uses(inst)[2] == x;
      SeqTyped(types, low, env, s, d.ty.elem, Exact(n));
      IntTyped(types, low, env, i, U64_TYPE);
    case SequenceCopy(d, into, at, s, start, n, bound, _, dstLength, _) =>
      assert Uses(inst)[0] == into && Uses(inst)[1] == at && Uses(inst)[2] == s && Uses(inst)[3] == start && Uses(inst)[4] == n;
      SeqTyped(types, low, env, into, d.ty.elem, Exact(dstLength));
      SeqTyped(types, low, env, s, d.ty.elem, bound);
      IntTyped(types, low, env, at, U64_TYPE);
      IntTyped(types, low, env, start, U64_TYPE);
      IntTyped(types, low, env, n, U64_TYPE);
    case SequenceProject(d, s, i, bound, _, _) =>
      assert Uses(inst)[0] == s && Uses(inst)[1] == i;
      SeqTyped(types, low, env, s, d.ty, bound);
      IntTyped(types, low, env, i, U64_TYPE);
    case SequenceLength(_, bound, s) =>
      assert Uses(inst)[0] == s;
      SeqTyped(types, low, env, s, ElementType(types[s]), bound);
    case ViewConstruct(d, bound, _, s, start, end) =>
      assert Uses(inst)[0] == s && Uses(inst)[1] == start && Uses(inst)[2] == end;
      SeqTyped(types, low, env, s, d.ty.elem, bound);
      IntTyped(types, low, env, start, U64_TYPE);
      IntTyped(types, low, env, end, U64_TYPE);
    case ViewNarrow(d, s, _) =>
      assert Uses(inst)[0] == s;
      SeqTyped(types, low, env, s, d.ty.elem, UpTo(types[s].cap));
    case BoundCheck(_, s, i, bound) =>
      assert Uses(inst)[0] == s && Uses(inst)[1] == i;
      SeqTyped(types, low, env, s, ElementType(types[s]), bound);
      IntTyped(types, low, env, i, U64_TYPE);
  }

  // ---------- Whole runs ----------

  /** Types are kept, nothing gets stuck inside the envelope, and a faithful
      module never leaves it. */
  ghost predicate Good(r: Result, ty: Ty, faithful: bool) {
    && (faithful ==> r.exact)
    && (r.exact ==> r.outcome != Invalid)
    && (r.outcome.Returned? ==> HasType(r.outcome.v, ty))
  }

  ghost predicate GoodProgress(pr: Progress, types: Types, low: set<Id>, faithful: bool) {
    && (faithful ==> pr.exact)
    && (pr.Done? ==> EnvTyped(types, low, pr.env))
    && (pr.Stopped? ==> !pr.outcome.Returned? && (pr.exact ==> pr.outcome != Invalid))
  }

  ghost predicate ArgsTyped(args: seq<Value>, params: seq<Val>) {
    |args| == |params| && forall i | 0 <= i < |args| :: HasType(args[i], params[i].ty)
  }

  lemma {:induction false} BindTyped(types: Types, low: set<Id>, env: Env, params: seq<Val>, vals: seq<Value>)
    requires EnvTyped(types, low, env) && ArgsTyped(vals, params)
    requires forall i | 0 <= i < |params| :: Typed(types, params[i].id, params[i].ty) && (params[i].id in low ==> IsLow(vals[i]))
    ensures EnvTyped(types, low, BindAll(env, params, vals))
    decreases |params|
  {
    if params != [] {
      BindTyped(types, low, env[params[0].id := vals[0]], params[1..], vals[1..]);
    }
  }

  lemma {:induction false} GoodFunction(m: Module, n: string, args: seq<Value>, depth: nat, limit: nat, fuel: nat, faithful: bool)
    requires ModuleOk(m) && n in m && ArgsTyped(args, m[n].params) && (faithful ==> FaithfulModule(m))
    ensures Good(RunFunction(m, m[n], args, depth, limit, fuel), m[n].result, faithful)
    decreases fuel, 1
  {
    hide RunBlock, HasType, TypesOf, AllVals, Have;
    var f := m[n];
    var dom :| FunctionOk(m, f, dom);
    var low := if faithful then var l :| FaithfulFunction(f, l); l else {};
    ParamsTyped(f);
    BindTyped(TypesOf(f), low, map[], f.params, args);
    EntryHave(m, f, dom, args);
    if depth <= limit {
      GoodBlock(m, n, dom, low, 0, BindAll(map[], f.params, args), depth, limit, fuel, faithful);
    }
  }

  lemma {:induction false} GoodInst(m: Module, types: Types, low: set<Id>, inst: Inst, env: Env, depth: nat, limit: nat, fuel: nat, faithful: bool)
    requires ModuleOk(m) && WellTyped(m, types, inst) && EnvTyped(types, low, env) && Available(Uses(inst), env.Keys)
    requires DefinesLow(inst, low) && (faithful ==> FaithfulModule(m) && Faithful(inst, low))
    ensures GoodProgress(RunInst(m, inst, env, depth, limit, fuel), types, low, faithful)
    decreases fuel, 2
  {
    hide RunFunction, HasType, Evaluate, InEnvelope, Faithful, ModuleOk, FaithfulModule;
    if inst.Call? {
      var args := inst.args;
      forall i | 0 <= i < |args|
        ensures args[i] in env && HasType(env[args[i]], m[inst.callee].params[i].ty)
      {
        assert Uses(inst)[i] == args[i];
      }
      GoodFunction(m, inst.callee, Lookup(args, env), depth + 1, limit, fuel, faithful);
    } else {
      if faithful {
        FaithfulInside(m, types, low, inst, env);
      }
      if InEnvelope(inst, env) {
        NeverBad(m, types, low, inst, env);
      }
      if Evaluate(inst, env).Yields? {
        YieldTyped(m, types, low, inst, env);
      }
    }
  }

  lemma {:induction false} GoodInsts(m: Module, types: Types, low: set<Id>, have: set<Id>, insts: seq<Inst>, env: Env, depth: nat, limit: nat, fuel: nat, faithful: bool)
    requires ModuleOk(m) && InstsOk(m, types, have, insts) && EnvTyped(types, low, env) && have <= env.Keys
    requires forall i | 0 <= i < |insts| :: DefinesLow(insts[i], low)
    requires faithful ==> FaithfulModule(m) && forall i | 0 <= i < |insts| :: Faithful(insts[i], low)
    ensures GoodProgress(RunInsts(m, insts, env, depth, limit, fuel), types, low, faithful)
    decreases fuel, 3, |insts|
  {
    hide RunInst, HasType, Faithful, ModuleOk, FaithfulModule, WellTyped, Uses, EnvTyped, DefinesLow;
    if insts != [] {
      GoodInst(m, types, low, insts[0], env, depth, limit, fuel, faithful);
      var first := RunInst(m, insts[0], env, depth, limit, fuel);
      if first.Done? {
        SourceTyped(m, types, insts[0]);
        Simulation.KeysGrow(m, types, have, insts, env, depth, limit, fuel);
        GoodInsts(m, types, low, have + {insts[0].dest.id}, insts[1..], first.env, depth, limit, fuel, faithful);
      }
    }
  }

  lemma TransferTyped(m: Module, f: Function, dom: map<Id, set<Id>>, low: set<Id>, have: set<Id>, from: Id, target: Id, args: seq<Id>, env: Env)
    requires FunctionOk(m, f, dom) && EdgeOk(f, dom, TypesOf(f), have, from, target, args) && have <= env.Keys && EnvTyped(TypesOf(f), low, env)
    requires EdgeLow(f, target, args, low)
    ensures var to := Transfer(f, env, target, args); to.At? && to.index < |f.blocks| && EnvTyped(TypesOf(f), low, to.env)
  {
    hide HasType, TypesOf, BlockOk, AllVals;
    ParamsTyped(f);
    var k := FindBlock(f.blocks, target).value;
    forall i | 0 <= i < |args|
      ensures args[i] in env
    {
      assert args[i] in have;
    }
    BindTyped(TypesOf(f), low, env, f.blocks[k].params, Lookup(args, env));
  }

  /** Terminators land, and keep types. */
  lemma TermTyped(m: Module, f: Function, dom: map<Id, set<Id>>, low: set<Id>, have: set<Id>, from: Id, term: Term, env: Env)
    requires FunctionOk(m, f, dom) && TermOk(f, dom, TypesOf(f), have, from, term) && have <= env.Keys && EnvTyped(TypesOf(f), low, env)
    requires PassesLow(f, term, low)
    ensures var o := Terminate(f, term, env);
            && (o.GoesTo? ==> EnvTyped(TypesOf(f), low, o.env))
            && (o.Ends? ==> o.outcome != Invalid && (o.outcome.Returned? ==> HasType(o.outcome.v, f.result)))
  {
    hide EdgeOk, Transfer, FunctionOk, TypesOf;
    match term
    case Return(_) =>
    case Jump(t, args) => TransferTyped(m, f, dom, low, have, from, t, args, env);
    case Branch(c, t, targs, e, eargs) =>
      TransferTyped(m, f, dom, low, have, from, t, targs, env);
      TransferTyped(m, f, dom, low, have, from, e, eargs, env);
    case Fail =>
  }

  lemma {:induction false} GoodBlock(m: Module, n: string, dom: map<Id, set<Id>>, low: set<Id>, k: nat, env: Env, depth: nat, limit: nat, fuel: nat, faithful: bool)
    requires ModuleOk(m) && n in m && FunctionOk(m, m[n], dom) && k < |m[n].blocks|
    requires LowOk(m[n], low) && (faithful ==> FaithfulModule(m) && FaithfulFunction(m[n], low))
    requires EnvTyped(TypesOf(m[n]), low, env) && Have(m[n], dom, m[n].blocks[k]) <= env.Keys
    ensures Good(RunBlock(m, m[n], k, env, depth, limit, fuel), m[n].result, faithful)
    decreases fuel, 0
  {
    hide RunInsts, HasType, Faithful, ModuleOk, Terminate, TypesOf, EnvTyped, Have, HaveAfter, InstsOk, TermOk;
    if fuel > 0 {
      var f, b := m[n], m[n].blocks[k];
      var have := Have(f, dom, b);
      assert BlockOk(m, f, dom, b);
      GoodInsts(m, TypesOf(f), low, have, b.insts, env, depth, limit, fuel - 1, faithful);
      RunHave(m, TypesOf(f), have, b.insts, env, depth, limit, fuel - 1);
      var pr := RunInsts(m, b.insts, env, depth, limit, fuel - 1);
      if pr.Done? {
        TermTyped(m, f, dom, low, HaveAfter(have, b.insts), b.id, b.term, pr.env);
        var o := Terminate(f, b.term, pr.env);
        if o.GoesTo? {
          TermHave(m, f, dom, k, pr.env);
          GoodBlock(m, n, dom, low, o.index, o.env, depth, limit, fuel - 1, faithful);
        }
      }
    }
  }
}
