/** The source language: block-parameter SSA over MNCS values, and the meaning
    that the reference executor gives each instruction. */
module Mncs {
  import opened Options
  import opened Words

  type Id = string

  // ---------- Types and values ----------

  datatype IntWidth = B8 | B16 | B32 | B64

  datatype Ty =
    | TInt(bits: IntWidth, signed: bool)
    | TBool
    | TSeq(elem: Ty, len: nat)    // exact bound
    | TView(elem: Ty, cap: nat)   // bounded view

  datatype Value = IntV(n: int) | BoolV(b: bool) | SeqV(elems: seq<Value>)

  const U64_TYPE := TInt(B64, false)

  function BitCount(b: IntWidth): nat {
    match b
    case B8 => 8
    case B16 => 16
    case B32 => 32
    case B64 => 64
  }

  function IntModulus(b: IntWidth): (m: int)
    ensures m > 0 && m % 2 == 0
  {
    match b
    case B8 => 0x100
    case B16 => 0x1_0000
    case B32 => TWO_32
    case B64 => TWO_64
  }

  function Minimum(b: IntWidth, signed: bool): int { if signed then -(IntModulus(b) / 2) else 0 }

  function Maximum(b: IntWidth, signed: bool): int { (if signed then IntModulus(b) / 2 else IntModulus(b)) - 1 }

  predicate InRange(n: int, b: IntWidth, signed: bool) { Minimum(b, signed) <= n <= Maximum(b, signed) }

  function WrapToBits(n: int, b: IntWidth, signed: bool): int { Wrap(n, IntModulus(b), signed) }

  predicate HasType(v: Value, ty: Ty)
    decreases v
  {
    match ty
    case TInt(b, s) => v.IntV? && InRange(v.n, b, s)
    case TBool => v.BoolV?
    case TSeq(e, n) => v.SeqV? && |v.elems| == n && forall i | 0 <= i < |v.elems| :: HasType(v.elems[i], e)
    case TView(e, c) => v.SeqV? && |v.elems| <= c && forall i | 0 <= i < |v.elems| :: HasType(v.elems[i], e)
  }

  // ---------- Integer arithmetic ----------

  datatype Intent = Wrapping | Checked | Saturating | Trapping

  datatype IntOp = OpAdd | OpSub | OpMul | OpDiv | OpMod | OpAnd | OpOr | OpXor | OpShl | OpShr

  predicate IsBitwise(op: IntOp) { op.OpAnd? || op.OpOr? || op.OpXor? }

  predicate IsShift(op: IntOp) { op.OpShl? || op.OpShr? }

  predicate IsDivision(op: IntOp) { op.OpDiv? || op.OpMod? }

  predicate OperatorSupported(op: IntOp, intent: Intent) {
    (IsBitwise(op) || IsShift(op)) ==> intent.Wrapping?
  }

  predicate FitsI128(n: int) { -TWO_127 <= n < TWO_127 }

  function BitOf(op: IntOp): BitOperator { if op.OpAnd? then BitAnd else if op.OpOr? then BitOr else BitXor }

  function EvaluateBitwise(op: IntOp, b: IntWidth, signed: bool, l: int, r: int): int {
    var m := IntModulus(b);
    Adjusted(Bitwise(BitOf(op), l % m, r % m, BitCount(b)), m, signed)
  }

  /** Reinterpret a pattern below `m` as signed. */
  function Adjusted(v: int, m: int, signed: bool): int { if signed && v >= m / 2 then v - m else v }

  /** Counts are taken modulo the width; a negative count has no value. */
  function EvaluateShift(op: IntOp, b: IntWidth, signed: bool, l: int, r: int): Option<int> {
    if r < 0 then None
    else
      var count := r % BitCount(b);
      var m := IntModulus(b);
      var shifted :=
        if op.OpShl? then ((l % m) * Pow2(count)) % m
        else if !signed then (l % m) / Pow2(count)
        else (l / Pow2(count)) % m;
      Some(WrapToBits(shifted, b, signed))
  }

  function EvaluateWrapping(op: IntOp, b: IntWidth, signed: bool, l: int, r: int): Option<int> {
    match op
    case OpAdd => Some(WrapToBits(l + r, b, signed))
    case OpSub => Some(WrapToBits(l - r, b, signed))
    case OpMul => Some(WrapToBits(Wrap(l * r, TWO_128, true), b, signed))
    case OpDiv => if r == 0 then None else Some(WrapToBits(TruncDiv(l, r), b, signed))
    case OpMod => if r == 0 then None else Some(WrapToBits(TruncRem(l, r), b, signed))
    case OpShl | OpShr => EvaluateShift(op, b, signed, l, r)
    case _ => Some(EvaluateBitwise(op, b, signed, l, r))
  }

  /** The exact result in 128-bit arithmetic, when there is one. */
  function RawResult(op: IntOp, l: int, r: int): Option<int> {
    match op
    case OpAdd => Some(l + r)
    case OpSub => Some(l - r)
    case OpMul => if FitsI128(l * r) then Some(l * r) else None
    case OpDiv => if r == 0 then None else Some(TruncDiv(l, r))
    case OpMod => if r == 0 then None else Some(TruncRem(l, r))
    case _ => None
  }

  function SaturationBound(op: IntOp, l: int, r: int, lo: int, hi: int): int {
    match op
    case OpAdd => if r < 0 then lo else hi
    case OpSub => if r < 0 then hi else lo
    case OpMul => if (l < 0) == (r < 0) then hi else lo
    case _ => hi
  }

  function Clamp(n: int, lo: int, hi: int): int { if n < lo then lo else if n > hi then hi else n }

  /** The reference executor's integer operation; `None` is a runtime failure. */
  function EvaluateInteger(op: IntOp, b: IntWidth, signed: bool, intent: Intent, l: int, r: int): Option<int> {
    if !InRange(l, b, signed) || !InRange(r, b, signed) || !OperatorSupported(op, intent) then None
    else if intent.Wrapping? then EvaluateWrapping(op, b, signed, l, r)
    else
      var lo, hi := Minimum(b, signed), Maximum(b, signed);
      var raw := RawResult(op, l, r);
      if intent.Saturating? then
        Some(if raw.Some? then Clamp(raw.value, lo, hi) else SaturationBound(op, l, r, lo, hi))
      else if raw.Some? && lo <= raw.value <= hi then raw
      else None
  }

  datatype Predicate = PEq | PNe | PLt | PLe | PGt | PGe

  function Compares(p: Predicate, a: int, b: int): bool {
    match p
    case PEq => a == b
    case PNe => a != b
    case PLt => a < b
    case PLe => a <= b
    case PGt => a > b
    case PGe => a >= b
  }

  // ---------- Programs ----------

  datatype Bound = Exact(len: nat) | UpTo(cap: nat)

  datatype Evidence = StaticExact | TraversalDomain | CheckedBound | RuntimeChecked

  datatype SlotWidth = S32 | S64

  datatype Val = Val(id: Id, ty: Ty)

  datatype Inst =
    | Const(dest: Val, literal: int)
    | Integer(dest: Val, op: IntOp, intent: Intent, permitted: bool, lhs: Id, rhs: Id)
    | Compare(dest: Val, pred: Predicate, bits: IntWidth, signed: bool, lhs: Id, rhs: Id)
    | Boolean(dest: Val, conj: bool, lhs: Id, rhs: Id)
    | BooleanCompare(dest: Val, equal: bool, lhs: Id, rhs: Id)
    | BooleanNot(dest: Val, src: Id)
    | Convert(dest: Val, from: Ty, src: Id)
    | Select(dest: Val, cond: Id, whenTrue: Id, whenFalse: Id)
    | SequenceConstruct(dest: Val, inputs: seq<Id>)
    | SequenceReplace(dest: Val, source: Id, index: Id, element: Id, length: nat, width: SlotWidth, evidence: Evidence)
    | SequenceCopy(dest: Val, destination: Id, dstAt: Id, source: Id, srcAt: Id, len: Id,
                   srcBound: Bound, evidence: Evidence, dstLength: nat, width: SlotWidth)
    | SequenceProject(dest: Val, sequence: Id, index: Id, bound: Bound, evidence: Evidence, width: SlotWidth)
    | SequenceLength(dest: Val, bound: Bound, sequence: Id)
    | ViewConstruct(dest: Val, sourceBound: Bound, viewCap: nat, source: Id, start: Id, end: Id)
    | ViewNarrow(dest: Val, source: Id, newCap: nat)
    | BoundCheck(dest: Val, sequence: Id, index: Id, bound: Bound)
    | Call(dest: Val, callee: string, args: seq<Id>)
    // Produced by lowering only.
    | CellAlloc(dest: Val, bytes: nat)
    | CellStore(cell: Id, byteOffset: nat, width: SlotWidth, stored: Id)
    | Group(insts: seq<Inst>)

  datatype Term =
    | Return(value: Id)
    | Jump(target: Id, args: seq<Id>)
    | Branch(cond: Id, thenTarget: Id, thenArgs: seq<Id>, elseTarget: Id, elseArgs: seq<Id>)
    | Fail

  datatype Block = Block(id: Id, params: seq<Val>, insts: seq<Inst>, term: Term)

  datatype Function = Function(name: string, params: seq<Val>, result: Ty, blocks: seq<Block>)

  type Module = map<string, Function>

  type Env = map<Id, Value>

  // ---------- Instructions ----------

  /** `Trap` is a runtime failure; `Bad` an unavailable or mistyped operand, or a
      bound that the static evidence had claimed. */
  datatype Effect = Yields(v: Value) | Trap | Bad

  predicate IsInt(env: Env, id: Id) { id in env && env[id].IntV? }

  predicate IsBool(env: Env, id: Id) { id in env && env[id].BoolV? }

  predicate IsSeq(env: Env, id: Id) { id in env && env[id].SeqV? }

  predicate AllIn(ids: seq<Id>, env: Env) { forall i | 0 <= i < |ids| :: ids[i] in env }

  function Lookup(ids: seq<Id>, env: Env): seq<Value>
    requires AllIn(ids, env)
  {
    seq(|ids|, i requires 0 <= i < |ids| => env[ids[i]])
  }

  function FromOption(r: Option<int>): Effect { if r.Some? then Yields(IntV(r.value)) else Trap }

  /** Overwrite the window of `into` that starts at `at` with a window of `from`. */
  function Splice(into: seq<Value>, at: nat, from: seq<Value>, start: nat, n: nat): (r: seq<Value>)
    requires at + n <= |into| && start + n <= |from|
    ensures |r| == |into|
  {
    into[..at] + from[start..start + n] + into[at + n..]
  }

  function EvaluateConst(ty: Ty, value: int): Effect {
    match ty
    case TInt(b, s) => if InRange(value, b, s) then Yields(IntV(value)) else Bad
    case TBool => if value == 0 || value == 1 then Yields(BoolV(value == 1)) else Bad
    case _ => Bad
  }

  function EvaluateConvert(ty: Ty, v: Value): Effect {
    if !ty.TInt? then Bad
    else
      match v
      case IntV(n) => Yields(IntV(WrapToBits(n, ty.bits, ty.signed)))
      case BoolV(b) => Yields(IntV(if b then 1 else 0))
      case SeqV(_) => Bad
  }

  function EvaluateProject(elems: seq<Value>, index: int, evidence: Evidence): Effect {
    if index < 0 then Bad
    else if index >= |elems| then if evidence.RuntimeChecked? then Trap else Bad
    else Yields(elems[index])
  }

  function EvaluateReplace(elems: seq<Value>, index: int, v: Value, length: nat): Effect {
    if index < 0 || index >= length then Trap
    else if index >= |elems| then Bad
    else Yields(SeqV(elems[index := v]))
  }

  function EvaluateCopy(into: seq<Value>, at: int, from: seq<Value>, start: int, n: int, dstLength: nat): Effect {
    if !(at >= 0 && start >= 0 && n >= 0 && at + n <= dstLength && start + n <= |from|) then Trap
    else if at + n > |into| then Bad
    else Yields(SeqV(Splice(into, at, from, start, n)))
  }

  function EvaluateView(elems: seq<Value>, start: int, end: int, cap: nat): Effect {
    if start < 0 || end < 0 || end < start then Trap
    else if end > |elems| then Trap
    else if end - start > cap then Trap
    else Yields(SeqV(elems[start..end]))
  }

  /** One instruction of the reference executor, calls apart. */
  function Evaluate(inst: Inst, env: Env): Effect {
    match inst
    case Const(d, v) => EvaluateConst(d.ty, v)
    case Integer(d, op, intent, _, l, r) =>
      if IsInt(env, l) && IsInt(env, r) && d.ty.TInt? then
        FromOption(EvaluateInteger(op, d.ty.bits, d.ty.signed, intent, env[l].n, env[r].n))
      else Bad
    case Compare(_, p, b, s, l, r) =>
      if IsInt(env, l) && IsInt(env, r) && InRange(env[l].n, b, s) && InRange(env[r].n, b, s) then
        Yields(BoolV(Compares(p, env[l].n, env[r].n)))
      else Bad
    case Boolean(_, conj, l, r) =>
      if IsBool(env, l) && IsBool(env, r) then
        Yields(BoolV(if conj then env[l].b && env[r].b else env[l].b || env[r].b))
      else Bad
    case BooleanCompare(_, equal, l, r) =>
      if IsBool(env, l) && IsBool(env, r) then Yields(BoolV((env[l].b == env[r].b) == equal)) else Bad
    case BooleanNot(_, x) => if IsBool(env, x) then Yields(BoolV(!env[x].b)) else Bad
    case Convert(d, _, x) => if x in env then EvaluateConvert(d.ty, env[x]) else Bad
    case Select(_, c, t, f) =>
      if IsBool(env, c) && t in env && f in env then Yields(if env[c].b then env[t] else env[f]) else Bad
    case SequenceConstruct(_, ids) => if AllIn(ids, env) then Yields(SeqV(Lookup(ids, env))) else Bad
    case SequenceReplace(_, s, i, x, n, _, _) =>
      if IsSeq(env, s) && IsInt(env, i) && x in env then EvaluateReplace(env[s].elems, env[i].n, env[x], n) else Bad
    case SequenceCopy(_, d, at, s, start, n, _, _, dstLength, _) =>
      if IsSeq(env, d) && IsSeq(env, s) && IsInt(env, at) && IsInt(env, start) && IsInt(env, n) then
        EvaluateCopy(env[d].elems, env[at].n, env[s].elems, env[start].n, env[n].n, dstLength)
      else Bad
    case SequenceProject(_, s, i, _, evidence, _) =>
      if IsSeq(env, s) && IsInt(env, i) then EvaluateProject(env[s].elems, env[i].n, evidence) else Bad
    case SequenceLength(_, _, s) => if IsSeq(env, s) then Yields(IntV(|env[s].elems|)) else Bad
    case ViewConstruct(_, _, cap, s, start, end) =>
      if IsSeq(env, s) && IsInt(env, start) && IsInt(env, end) then
        EvaluateView(env[s].elems, env[start].n, env[end].n, cap)
      else Bad
    case ViewNarrow(_, s, cap) =>
      if IsSeq(env, s) then if |env[s].elems| > cap then Trap else Yields(env[s]) else Bad
    case BoundCheck(_, s, i, _) =>
      if IsSeq(env, s) && IsInt(env, i) then
        if env[i].n < 0 || env[i].n >= |env[s].elems| then Trap else Yields(env[i])
      else Bad
    case _ => Bad
  }
}
