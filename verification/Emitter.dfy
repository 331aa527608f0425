/** The generator as it runs: a name table filled in place, and statements
    appended to an output buffer, loop by loop. Each loop is proved against the
    function that specifies its text. */
module Emitter {
  import opened Options
  import opened Mncs
  import opened Emit
  import opened Poison
  import C = CLang

  // ---------- The output buffer ----------

  class Output {
    var code: seq<C.Stmt>

    constructor ()
      ensures code == []
    {
      code := [];
    }

    method Push(s: C.Stmt)
      modifies this
      ensures code == old(code) + [s]
    {
      code := code + [s];
    }

    method PushAll(ss: seq<C.Stmt>)
      modifies this
      ensures code == old(code) + ss
    {
      code := code + ss;
    }
  }

  // ---------- Names ----------

  lemma Assoc<T>(a: seq<T>, b: seq<T>, c: seq<T>)
    ensures (a + b) + c == a + (b + c)
  {
  }

  lemma FlattenStep(insts: seq<Inst>, i: nat)
    requires i < |insts|
    ensures Flatten(insts[i..]) == (if insts[i].Group? then Flatten(insts[i].insts) else [insts[i]]) + Flatten(insts[i + 1..])
  {
    assert insts[i..][0] == insts[i] && insts[i..][1..] == insts[i + 1..];
  }

  /** Sequence groups are flattened so that every concrete instruction is met once. */
  method FlattenInsts(insts: seq<Inst>) returns (flat: seq<Inst>)
    ensures flat == Flatten(insts)
    decreases insts
  {
    flat := [];
    assert insts[0..] == insts && insts[|insts|..] == [];
    for i := 0 to |insts|
      invariant flat + Flatten(insts[i..]) == Flatten(insts)
    {
      hide Flatten;
      FlattenStep(insts, i);
      match insts[i] {
        case Group(nested) =>
          var inner := FlattenInsts(nested);
          Assoc(flat, inner, Flatten(insts[i + 1..]));
          flat := flat + inner;
        case other =>
          Assoc(flat, [other], Flatten(insts[i + 1..]));
          flat := flat + [other];
      }
    }
  }

  lemma {:induction false} NameAllAppend(names: Names, a: seq<Id>, b: seq<Id>)
    ensures NameAll(names, a + b) == NameAll(NameAll(names, a), b)
    decreases |a|
  {
    if a == [] {
      assert a + b == b;
    } else {
      assert (a + b)[0] == a[0] && (a + b)[1..] == a[1..] + b;
      NameAllAppend(Enter(names, a[0]), a[1..], b);
    }
  }

  lemma NameNext(names: Names, ids: seq<Id>, i: nat)
    requires i < |ids|
    ensures NameAll(names, ids[..i + 1]) == Enter(NameAll(names, ids[..i]), ids[i])
  {
    assert ids[..i + 1] == ids[..i] + [ids[i]];
    NameAllAppend(names, ids[..i], [ids[i]]);
    assert [ids[i]][1..] == [];
    assert NameAll(NameAll(names, ids[..i]), [ids[i]]) == NameAll(Enter(NameAll(names, ids[..i]), ids[i]), []);
  }

  lemma {:induction false} BlocksValsUpTo(bs: seq<Block>, k: nat)
    requires k < |bs|
    ensures BlocksVals(bs[..k + 1]) == BlocksVals(bs[..k]) + BlockVals(bs[k])
    decreases k
  {
    hide BlockVals;
    if k == 0 {
      assert bs[..1] == [bs[0]] && bs[..0] == [] && [bs[0]][1..] == [];
      assert BlocksVals([bs[0]]) == BlockVals(bs[0]) + BlocksVals([]);
    } else {
      assert bs[..k + 1][1..] == bs[1..][..k] && bs[..k][1..] == bs[1..][..k - 1];
      assert bs[..k + 1][0] == bs[0] && bs[..k][0] == bs[0] && bs[1..][k - 1] == bs[k];
      BlocksValsUpTo(bs[1..], k - 1);
    }
  }

  lemma IdsAppend(a: seq<Val>, b: seq<Val>)
    ensures IdsOf(a + b) == IdsOf(a) + IdsOf(b)
  {
  }

  class CNames {
    var values: map<Id, string>
    var blocks: map<Id, nat>
    var next: nat

    /** One number per distinct id. */
    predicate Valid()
      reads this
    {
      next == |values|
    }

    /** Entering an id that is already there changes nothing. */
    method Enter(id: Id)
      requires Valid()
      modifies this`values, this`next
      ensures Valid() && values == Emit.Enter(old(values), id)
    {
      if id !in values {
        values := values[id := ValueName(next)];
        next := next + 1;
      }
    }

    method EnterAll(vals: seq<Val>)
      requires Valid()
      modifies this`values, this`next
      ensures Valid() && values == NameAll(old(values), IdsOf(vals))
    {
      for i := 0 to |vals|
        invariant Valid() && values == NameAll(old(values), IdsOf(vals)[..i])
      {
        NameNext(old(values), IdsOf(vals), i);
        Enter(vals[i].id);
      }
      assert IdsOf(vals)[..|vals|] == IdsOf(vals);
    }

    constructor (f: Function)
      ensures Valid()
      ensures values == NamesOf(f)
      ensures forall id :: id in blocks <==> exists k :: 0 <= k < |f.blocks| && f.blocks[k].id == id
      ensures forall id | id in blocks :: blocks[id] < |f.blocks| && f.blocks[blocks[id]].id == id
    {
      values, blocks, next := map[], map[], 0;
      new;
      EnterFunction(f);
      IndexBlocks(f.blocks);
    }

    method EnterFunction(f: Function)
      requires Valid() && values == map[]
      modifies this`values, this`next
      ensures Valid() && values == NamesOf(f)
    {
      EnterAll(f.params);
      EnterBlocks(f);
    }

    method EnterBlock(b: Block)
      requires Valid()
      modifies this`values, this`next
      ensures Valid() && values == NameAll(old(values), IdsOf(BlockVals(b)))
    {
      hide NameAll, Lower, Dests, Flatten;
      EnterAll(b.params);
      var flat := FlattenInsts(LowerAll(b.insts));
      EnterAll(Dests(flat));
      IdsAppend(b.params, Dests(flat));
      NameAllAppend(old(values), IdsOf(b.params), IdsOf(Dests(flat)));
    }

    method EnterBlocks(f: Function)
      requires Valid() && values == NameAll(map[], IdsOf(f.params))
      modifies this`values, this`next
      ensures Valid() && values == NamesOf(f)
    {
      assert BlocksVals(f.blocks[..0]) == [];
      assert IdsOf(f.params) + IdsOf(BlocksVals(f.blocks[..0])) == IdsOf(f.params);
      for k := 0 to |f.blocks|
        invariant Valid() && values == NameAll(map[], IdsOf(f.params) + IdsOf(BlocksVals(f.blocks[..k])))
      {
        hide NameAll, BlockVals, BlocksVals, IdsOf;
        EnterBlock(f.blocks[k]);
        BlocksValsUpTo(f.blocks, k);
        IdsAppend(BlocksVals(f.blocks[..k]), BlockVals(f.blocks[k]));
        var before := IdsOf(f.params) + IdsOf(BlocksVals(f.blocks[..k]));
        NameAllAppend(map[], before, IdsOf(BlockVals(f.blocks[k])));
        Assoc(IdsOf(f.params), IdsOf(BlocksVals(f.blocks[..k])), IdsOf(BlockVals(f.blocks[k])));
      }
      assert f.blocks[..|f.blocks|] == f.blocks;
      IdsAppend(f.params, BlocksVals(f.blocks));
    }

    /** Each block id is mapped to the position of a block that bears it. */
    method IndexBlocks(bs: seq<Block>)
      requires blocks == map[]
      modifies this`blocks
      ensures forall id :: id in blocks <==> exists k :: 0 <= k < |bs| && bs[k].id == id
      ensures forall id | id in blocks :: blocks[id] < |bs| && bs[blocks[id]].id == id
    {
      for k := 0 to |bs|
        invariant forall id :: id in blocks <==> exists j :: 0 <= j < k && bs[j].id == id
        invariant forall id | id in blocks :: blocks[id] < k && bs[blocks[id]].id == id
      {
        blocks := blocks[bs[k].id := k];
      }
    }

    function Value(id: Id): string
      reads this
    {
      NameOf(values, id)
    }

    function BlockIndex(id: Id): nat
      reads this
    {
      if id in blocks then blocks[id] else 0
    }
  }

  // ---------- Transfers ----------

  /** Where a jump goes, with unique block ids: the table and the search agree. */
  lemma {:induction false} TableFinds(bs: seq<Block>, id: Id, k: nat)
    requires k < |bs| && bs[k].id == id && forall i, j | 0 <= i < j < |bs| :: bs[i].id != bs[j].id
    ensures FindBlock(bs, id) == Some(k)
  {
    if k > 0 {
      TableFinds(bs[1..], id, k - 1);
    }
  }

  lemma {:induction false} FindsNone(bs: seq<Block>, id: Id)
    requires forall k | 0 <= k < |bs| :: bs[k].id != id
    ensures FindBlock(bs, id) == None
  {
    if bs != [] {
      FindsNone(bs[1..], id);
    }
  }

  lemma TransferFrom(names: Names, params: seq<Val>, args: seq<Id>, i: nat)
    requires i < |params| && i < |args|
    ensures TransferCode(names, params[i..], args[i..])
         == (if params[i].id != args[i] then [C.Assign(NameOf(names, params[i].id), C.Var(NameOf(names, args[i])))] else [])
            + TransferCode(names, params[i + 1..], args[i + 1..])
  {
    assert params[i..][1..] == params[i + 1..] && args[i..][1..] == args[i + 1..];
    assert params[i..][0] == params[i] && args[i..][0] == args[i];
  }

  method EmitTransfers(out: Output, params: seq<Val>, args: seq<Id>, names: CNames)
    modifies out
    ensures out.code == old(out.code) + TransferCode(names.values, params, args)
  {
    var n := if |params| < |args| then |params| else |args|;
    assert params[0..] == params && args[0..] == args;
    for i := 0 to n
      invariant out.code + TransferCode(names.values, params[i..], args[i..]) == old(out.code) + TransferCode(names.values, params, args)
    {
      hide TransferCode;
      TransferFrom(names.values, params, args, i);
      if params[i].id != args[i] {
        var move := C.Assign(names.Value(params[i].id), C.Var(names.Value(args[i])));
        Assoc(out.code, [move], TransferCode(names.values, params[i + 1..], args[i + 1..]));
        out.Push(move);
      }
    }
    assert params[n..] == [] || args[n..] == [];
  }

  // ---------- Unrolled lanes ----------

  method EmitCopyLanes(out: Output, d: string, s: string, w: SlotWidth, length: nat)
    modifies out
    ensures out.code == old(out.code) + CopyLanes(d, s, w, 0, length)
  {
    for lane := 0 to length
      invariant out.code + CopyLanes(d, s, w, lane, length) == old(out.code) + CopyLanes(d, s, w, 0, length)
    {
      out.Push(C.CopySlot(CWidth(w), LaneAddress(d, lane), LaneAddress(s, lane)));
    }
  }

  method EmitSpanLanes(out: Output, d: string, into: string, at: string, base: C.Expr, start: string, n: string, w: SlotWidth, length: nat)
    modifies out
    ensures out.code == old(out.code) + SpanLanes(d, into, at, base, start, n, w, 0, length)
  {
    for lane := 0 to length
      invariant out.code + SpanLanes(d, into, at, base, start, n, w, lane, length) == old(out.code) + SpanLanes(d, into, at, base, start, n, w, 0, length)
    {
      hide SpanLane;
      Assoc(out.code, SpanLane(d, into, at, base, start, n, w, lane), SpanLanes(d, into, at, base, start, n, w, lane + 1, length));
      out.PushAll(SpanLane(d, into, at, base, start, n, w, lane));
    }
  }

  // ---------- Instructions ----------

  method EmitReplace(out: Output, d: string, s: string, index: string, x: string, n: nat, w: SlotWidth, evidence: Evidence)
    modifies out
    ensures out.code == old(out.code) + ReplaceCode(d, s, index, x, n, w, evidence)
  {
    hide CopyLanes;
    if evidence.RuntimeChecked? {
      out.Push(IndexGuard(index, NumULL(n)));
    }
    out.Push(C.Alloc(d, NumU(n * 8)));
    EmitCopyLanes(out, d, s, w, n);
    out.Push(C.Store(CWidth(w), SlotAddress(C.Var(d), index), C.Cast(C.SlotType(CWidth(w)), C.Var(x))));
  }

  method EmitCopy(out: Output, d: string, into: string, at: string, s: string, start: string, n: string,
                  bound: Bound, evidence: Evidence, dstLength: nat, w: SlotWidth)
    modifies out
    ensures out.code == old(out.code) + CopyCode(d, into, at, s, start, n, bound, evidence, dstLength, w)
  {
    hide SpanLanes, CopyGuard, LengthOf, BaseOf;
    if evidence.RuntimeChecked? {
      out.PushAll(CopyGuard(at, start, n, dstLength, LengthOf(s, bound)));
    }
    out.Push(C.Alloc(d, NumU(dstLength * 8)));
    EmitSpanLanes(out, d, into, at, BaseOf(s, bound), start, n, w, dstLength);
  }

  /** Each family of operators writes its own statements and returns. */
  method EmitInteger(out: Output, d: string, ty: Ty, op: IntOp, intent: Intent, permitted: bool, l: string, r: string)
    requires ty.TInt?
    modifies out
    ensures out.code == old(out.code) + IntegerCode(d, ty, op, intent, permitted, l, r)
  {
    hide ArithmeticOp, ShiftedWord, ShiftRightExpr, QuotientExpr, WideType, Widen, MaxLiteral, MinLiteral, WrappingExpr;
    var b, signed, cty := ty.bits, ty.signed, CTypeOf(ty);
    if IsBitwise(op) {
      out.Push(C.Assign(d, C.Cast(cty, C.Bin(ArithmeticOp(op), AsU64(l), AsU64(r)))));
      return;
    }
    if op.OpShl? {
      out.Push(C.Declare(C.U64, "mncs_w", C.Cast(C.U64, AsU64(l))));
      out.Push(C.Assign("mncs_w", ShiftedWord(b, r)));
      out.Push(C.Assign(d, C.Cast(cty, C.Var("mncs_w"))));
      return;
    }
    if op.OpShr? {
      out.Push(C.Assign(d, C.Cast(cty, ShiftRightExpr(b, signed, l, r))));
      return;
    }
    if IsDivision(op) {
      var edge := C.Bin(C.LogicalAnd, C.Bin(C.Eq, C.Var(l), MinMacro(b)), C.Bin(C.Eq, C.Var(r), C.Neg(Num(1))));
      var divide := C.Assign(d, QuotientExpr(op, b, signed, cty, l, r));
      out.Push(TrapIf(C.Bin(C.Eq, C.Var(r), Num(0))));
      if signed && op.OpMod? {
        out.Push(C.If(edge, [C.Assign(d, C.Cast(cty, Num(0)))], [divide]));
      } else {
        if signed {
          out.Push(TrapIf(edge));
        }
        out.Push(divide);
      }
      return;
    }
    if (intent.Checked? || intent.Trapping?) && !permitted {
      out.Push(WideCode(b, signed, op, l, r));
      out.Push(TrapIf(C.Bin(C.LogicalOr, Above(b, signed), Below(b, signed))));
      out.Push(C.Assign(d, C.Cast(cty, C.Var("mncs_wide"))));
    } else if intent.Saturating? {
      out.Push(WideCode(b, signed, op, l, r));
      out.Push(C.If(Above(b, signed), [C.Assign("mncs_wide", MaxLiteral(b, signed))], []));
      out.Push(C.If(Below(b, signed), [C.Assign("mncs_wide", MinLiteral(b, signed))], []));
      out.Push(C.Assign(d, C.Cast(cty, C.Var("mncs_wide"))));
    } else {
      out.Push(C.Assign(d, WrappingExpr(op, b, cty, l, r)));
    }
  }

  method EmitSelect(out: Output, d: string, cty: C.CType, c: string, t: string, f: string)
    modifies out
    ensures out.code == old(out.code) + SelectCode(d, cty, c, t, f)
  {
    out.Push(C.Declare(C.U64, "mncs_mask", C.Bin(C.Sub, NumU(0), AsU64(c))));
    out.Push(C.Declare(C.U64, "mncs_t", AsU64(t)));
    out.Push(C.Declare(C.U64, "mncs_f", AsU64(f)));
    var taken := C.Bin(C.And, C.Var("mncs_t"), C.Var("mncs_mask"));
    var other := C.Bin(C.And, C.Var("mncs_f"), C.BitNot(C.Var("mncs_mask")));
    out.Push(C.Assign(d, C.Cast(cty, C.Bin(C.Or, taken, other))));
  }

  method EmitProject(out: Output, d: string, cty: C.CType, s: string, index: string, bound: Bound, evidence: Evidence, w: SlotWidth)
    modifies out
    ensures out.code == old(out.code) + ProjectCode(d, cty, s, index, bound, evidence, w)
  {
    hide LengthOf, BaseOf;
    if evidence.RuntimeChecked? {
      out.Push(IndexGuard(index, LengthOf(s, bound)));
    }
    out.Push(C.Load(d, cty, CWidth(w), SlotAddress(BaseOf(s, bound), index)));
  }

  method CollectArgs(args: seq<Id>, names: CNames) returns (list: seq<C.Expr>)
    ensures list == VarArgs(names.values, args)
  {
    list := [];
    for i := 0 to |args|
      invariant list == VarArgs(names.values, args)[..i]
    {
      list := list + [C.Var(names.Value(args[i]))];
    }
  }

  method EmitCall(out: Output, dest: Val, callee: string, args: seq<Id>, names: CNames)
    modifies out
    ensures out.code == old(out.code) + InstCode(names.values, Call(dest, callee, args))
  {
    var list := CollectArgs(args, names);
    out.Push(C.Call(callee, list));
    out.Push(C.ReturnIfStatus);
    out.Push(C.TakeValue(names.Value(dest.id), CTypeOf(dest.ty)));
  }

  predicate IsScalar(inst: Inst) {
    inst.Const? || inst.Integer? || inst.Compare? || inst.Boolean? || inst.BooleanCompare? || inst.BooleanNot? || inst.Convert? || inst.Select?
  }

  method EmitScalar(out: Output, inst: Inst, names: CNames)
    requires IsScalar(inst)
    modifies out
    ensures out.code == old(out.code) + InstCode(names.values, inst)
  {
    hide IntegerCode, SelectCode, CompareExpr, IntegerLiteral, CTypeOf, NameOf;
    match inst {
      case Const(dest, literal) =>
        out.Push(C.Assign(names.Value(dest.id), C.Cast(CTypeOf(dest.ty), IntegerLiteral(literal))));
      case Integer(dest, op, intent, permitted, l, r) =>
        if dest.ty.TInt? {
          EmitInteger(out, names.Value(dest.id), dest.ty, op, intent, permitted, names.Value(l), names.Value(r));
        }
      case Compare(dest, p, b, s, l, r) =>
        out.Push(C.Assign(names.Value(dest.id), C.Cast(CTypeOf(dest.ty), CompareExpr(p, b, s, names.Value(l), names.Value(r)))));
      case Boolean(dest, conj, l, r) =>
        var op := if conj then C.LogicalAnd else C.LogicalOr;
        out.Push(C.Assign(names.Value(dest.id), C.Cast(CTypeOf(dest.ty), C.Bin(op, C.Var(names.Value(l)), C.Var(names.Value(r))))));
      case BooleanCompare(dest, equal, l, r) =>
        var op := if equal then C.Eq else C.Ne;
        out.Push(C.Assign(names.Value(dest.id), C.Cast(CTypeOf(dest.ty), C.Bin(op, C.Var(names.Value(l)), C.Var(names.Value(r))))));
      case BooleanNot(dest, x) =>
        out.Push(C.Assign(names.Value(dest.id), C.Cast(CTypeOf(dest.ty), C.LogicalNot(C.Var(names.Value(x))))));
      case Convert(dest, _, x) =>
        out.Push(C.Assign(names.Value(dest.id), C.Cast(CTypeOf(dest.ty), C.Var(names.Value(x)))));
      case Select(dest, c, t, f) =>
        EmitSelect(out, names.Value(dest.id), CTypeOf(dest.ty), names.Value(c), names.Value(t), names.Value(f));
    }
  }

  method EmitInst(out: Output, inst: Inst, names: CNames)
    modifies out
    ensures out.code == old(out.code) + InstCode(names.values, inst)
  {
    hide ReplaceCode, CopyCode, ProjectCode, LengthOf, ViewGuard, ViewDescriptor, CTypeOf, NameOf;
    if IsScalar(inst) {
      EmitScalar(out, inst, names);
      return;
    }
    match inst {
      case SequenceReplace(dest, s, i, x, n, w, evidence) =>
        EmitReplace(out, names.Value(dest.id), names.Value(s), names.Value(i), names.Value(x), n, w, evidence);
      case SequenceCopy(dest, into, at, s, start, n, bound, evidence, dstLength, w) =>
        EmitCopy(out, names.Value(dest.id), names.Value(into), names.Value(at), names.Value(s), names.Value(start), names.Value(n),
                 bound, evidence, dstLength, w);
      case SequenceProject(dest, s, i, bound, evidence, w) =>
        EmitProject(out, names.Value(dest.id), CTypeOf(dest.ty), names.Value(s), names.Value(i), bound, evidence, w);
      case SequenceLength(dest, bound, s) =>
        out.Push(C.Assign(names.Value(dest.id), C.Cast(CTypeOf(dest.ty), LengthOf(names.Value(s), bound))));
      case ViewConstruct(dest, bound, cap, s, start, end) =>
        out.Push(ViewGuard(names.Value(s), bound, names.Value(start), names.Value(end), cap));
        out.Push(C.Assign(names.Value(dest.id), ViewDescriptor(names.Value(s), bound, names.Value(start), names.Value(end))));
      case ViewNarrow(dest, s, cap) =>
        out.Push(C.Assign(names.Value(dest.id), C.Var(names.Value(s))));
        out.Push(TrapIf(C.Bin(C.Gt, C.Bin(C.Shr, C.Var(names.Value(dest.id)), Num(32)), NumULL(cap))));
      case BoundCheck(dest, s, i, bound) =>
        out.Push(IndexGuard(names.Value(i), LengthOf(names.Value(s), bound)));
        out.Push(C.Assign(names.Value(dest.id), C.Var(names.Value(i))));
      case Call(dest, callee, args) =>
        EmitCall(out, dest, callee, args, names);
      case CellAlloc(dest, bytes) =>
        out.Push(C.Alloc(names.Value(dest.id), Num(bytes)));
      case CellStore(cell, offset, w, x) =>
        out.Push(C.Store(CWidth(w), C.Bin(C.Add, C.Var(names.Value(cell)), Num(offset)), C.Cast(C.SlotType(CWidth(w)), C.Var(names.Value(x)))));
      case _ =>
    }
  }

  method EmitInsts(out: Output, insts: seq<Inst>, names: CNames)
    modifies out
    ensures out.code == old(out.code) + InstsCode(names.values, insts)
  {
    for i := 0 to |insts|
      invariant out.code + InstsCode(names.values, insts[i..]) == old(out.code) + InstsCode(names.values, insts)
    {
      hide InstCode;
      assert insts[i..][0] == insts[i] && insts[i..][1..] == insts[i + 1..];
      Assoc(out.code, InstCode(names.values, insts[i]), InstsCode(names.values, insts[i + 1..]));
      EmitInst(out, insts[i], names);
    }
  }

  // ---------- Terminators and functions ----------

  ghost predicate Tabulates(names: CNames, f: Function)
    reads names
  {
    && names.values == NamesOf(f)
    && (forall id :: id in names.blocks <==> exists k :: 0 <= k < |f.blocks| && f.blocks[k].id == id)
    && (forall id | id in names.blocks :: names.blocks[id] < |f.blocks| && f.blocks[names.blocks[id]].id == id)
  }

  predicate UniqueBlocks(f: Function) { forall i, j | 0 <= i < j < |f.blocks| :: f.blocks[i].id != f.blocks[j].id }

  method EmitJump(out: Output, f: Function, target: Id, args: seq<Id>, names: CNames)
    requires Tabulates(names, f) && UniqueBlocks(f)
    modifies out
    ensures out.code == old(out.code) + JumpCode(NamesOf(f), f.blocks, target, args)
  {
    if target in names.blocks {
      TableFinds(f.blocks, target, names.blocks[target]);
      EmitTransfers(out, f.blocks[names.blocks[target]].params, args, names);
    } else {
      FindsNone(f.blocks, target);
    }
    out.Push(C.Goto(names.BlockIndex(target)));
  }

  method EmitTerm(out: Output, f: Function, term: Term, names: CNames, hasArena: bool)
    requires Tabulates(names, f) && UniqueBlocks(f)
    modifies out
    ensures out.code == old(out.code) + TermCode(NamesOf(f), f, term, hasArena)
  {
    match term {
      case Return(v) =>
        if hasArena {
          out.Push(C.LeaveIfFailed);
        }
        out.Push(C.ReturnValue(C.Var(names.Value(v))));
      case Jump(t, args) =>
        EmitJump(out, f, t, args, names);
      case Branch(c, t, targs, e, eargs) =>
        var thn := new Output();
        var els := new Output();
        EmitJump(thn, f, t, targs, names);
        EmitJump(els, f, e, eargs, names);
        assert thn.code == JumpCode(NamesOf(f), f.blocks, t, targs) && els.code == JumpCode(NamesOf(f), f.blocks, e, eargs);
        out.Push(C.If(C.Var(names.Value(c)), thn.code, els.code));
      case Fail =>
        out.Push(C.Leave(1));
    }
  }

  lemma {:induction false} DeclarationsAppend(names: Names, declared: set<Id>, a: seq<Val>, b: seq<Val>)
    ensures Declarations(names, declared, a + b) == Declarations(names, declared, a) + Declarations(names, declared + IdSet(a), b)
    decreases |a|
  {
    if a == [] {
      assert a + b == b && declared + IdSet(a) == declared;
    } else {
      assert (a + b)[0] == a[0] && (a + b)[1..] == a[1..] + b;
      DeclarationsAppend(names, declared + {a[0].id}, a[1..], b);
      IdSetCons(a);
      assert declared + {a[0].id} + IdSet(a[1..]) == declared + IdSet(a);
    }
  }

  lemma IdSetCons(a: seq<Val>)
    requires a != []
    ensures IdSet(a) == {a[0].id} + IdSet(a[1..])
  {
    forall i
      ensures i in IdSet(a) <==> i == a[0].id || i in IdSet(a[1..])
    {
      if i in IdSet(a[1..]) {
        var k :| 0 <= k < |a[1..]| && a[1..][k].id == i;
        assert a[k + 1].id == i;
      }
      if i in IdSet(a) && i != a[0].id {
        var k :| 0 <= k < |a| && a[k].id == i;
        assert a[1..][k - 1].id == i;
      }
    }
  }

  lemma IdSetAppend(a: seq<Val>, b: seq<Val>)
    ensures IdSet(a + b) == IdSet(a) + IdSet(b)
  {
    forall i
      ensures i in IdSet(a + b) <==> i in IdSet(a) || i in IdSet(b)
    {
      if i in IdSet(a) {
        var k :| 0 <= k < |a| && a[k].id == i;
        assert (a + b)[k].id == i;
      }
      if i in IdSet(b) {
        var k :| 0 <= k < |b| && b[k].id == i;
        assert (a + b)[|a| + k].id == i;
      }
    }
  }

  lemma DeclareNext(names: Names, declared: set<Id>, vals: seq<Val>, i: nat)
    requires i < |vals|
    ensures Declarations(names, declared, vals[i..])
         == (if vals[i].id in declared then [] else [C.Decl(CTypeOf(vals[i].ty), NameOf(names, vals[i].id))])
            + Declarations(names, declared + {vals[i].id}, vals[i + 1..])
  {
    assert vals[i..][0] == vals[i] && vals[i..][1..] == vals[i + 1..];
  }

  /** Declare each value not declared yet. */
  method EmitDeclarations(vals: seq<Val>, names: CNames, declared: set<Id>) returns (decls: seq<C.Decl>, declared': set<Id>)
    ensures decls == Declarations(names.values, declared, vals)
    ensures declared' == declared + IdSet(vals)
  {
    decls, declared' := [], declared;
    assert vals[0..] == vals;
    for i := 0 to |vals|
      invariant decls + Declarations(names.values, declared', vals[i..]) == Declarations(names.values, declared, vals)
      invariant declared' + IdSet(vals[i..]) == declared + IdSet(vals)
    {
      hide IdSet;
      IdSetCons(vals[i..]);
      DeclareNext(names.values, declared', vals, i);
      assert vals[i..][0] == vals[i] && vals[i..][1..] == vals[i + 1..];
      if vals[i].id !in declared' {
        var decl := C.Decl(CTypeOf(vals[i].ty), names.Value(vals[i].id));
        Assoc(decls, [decl], Declarations(names.values, declared' + {vals[i].id}, vals[i + 1..]));
        decls := decls + [decl];
      }
      declared' := declared' + {vals[i].id};
    }
  }

  /** All local declarations: block parameters and destinations, block by block. */
  method EmitLocals(f: Function, names: CNames) returns (decls: seq<C.Decl>)
    ensures decls == Declarations(names.values, IdSet(f.params), BlocksVals(f.blocks))
  {
    var declared := IdSet(f.params);
    decls := [];
    for k := 0 to |f.blocks|
      invariant decls == Declarations(names.values, IdSet(f.params), BlocksVals(f.blocks[..k]))
      invariant declared == IdSet(f.params) + IdSet(BlocksVals(f.blocks[..k]))
    {
      var flat := FlattenInsts(LowerAll(f.blocks[k].insts));
      var more: seq<C.Decl>;
      more, declared := EmitDeclarations(f.blocks[k].params + Dests(flat), names, declared);
      decls := decls + more;
      BlocksValsUpTo(f.blocks, k);
      DeclarationsAppend(names.values, IdSet(f.params), BlocksVals(f.blocks[..k]), BlockVals(f.blocks[k]));
      IdSetAppend(BlocksVals(f.blocks[..k]), BlockVals(f.blocks[k]));
    }
    assert f.blocks[..|f.blocks|] == f.blocks;
  }

  method EmitBlock(f: Function, b: Block, names: CNames, hasArena: bool) returns (code: seq<C.Stmt>)
    requires Tabulates(names, f) && UniqueBlocks(f)
    ensures code == BlockCode(NamesOf(f), f, b, hasArena)
  {
    hide Lower, Flatten, InstsCode, TermCode, NamesOf;
    var out := new Output();
    var flat := FlattenInsts(LowerAll(b.insts));
    EmitInsts(out, flat, names);
    EmitTerm(out, f, b.term, names, hasArena);
    code := out.code;
  }

  method EmitCases(f: Function, names: CNames, hasArena: bool) returns (cases: seq<seq<C.Stmt>>)
    requires Tabulates(names, f) && UniqueBlocks(f)
    ensures cases == CasesFrom(NamesOf(f), f, 0, hasArena)
  {
    hide NamesOf, BlockCode, CasesFrom;
    cases := [];
    ghost var all := CasesFrom(NamesOf(f), f, 0, hasArena);
    CasesAt(NamesOf(f), f, 0, hasArena);
    for k := 0 to |f.blocks|
      invariant cases == all[..k]
    {
      var code := EmitBlock(f, f.blocks[k], names, hasArena);
      assert all[k - 0] == code;
      cases := cases + [code];
    }
  }

  method EmitFunction(f: Function, hasArena: bool) returns (c: C.Function)
    requires UniqueBlocks(f)
    ensures c == FunctionCode(f, hasArena)
  {
    hide NamesOf, CasesFrom, Declarations;
    var names := new CNames(f);
    var decls := EmitLocals(f, names);
    var cases := EmitCases(f, names, hasArena);
    var prologue := [C.DepthGuard(MAX_CALL_DEPTH)];
    if hasArena {
      prologue := prologue + [C.ResetAtTop];
    }
    c := C.Function(ParamDecls(names.values, f.params), decls, prologue, cases);
  }

  method EmitModule(m: Module) returns (p: C.Program)
    requires forall n | n in m :: UniqueBlocks(m[n])
    ensures p == ModuleCode(m)
  {
    hide FunctionCode, NeedsArena;
    p := map[];
    var hasArena, left := NeedsArena(m), m.Keys;
    while left != {}
      invariant left <= m.Keys
      invariant p == map n | n in m && n !in left :: FunctionCode(m[n], hasArena)
      decreases |left|
    {
      var n :| n in left;
      var c := EmitFunction(m[n], hasArena);
      p := p[n := c];
      left := left - {n};
    }
  }
}
