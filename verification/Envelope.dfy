/** Static typing of SSA functions, and the conditions on operands under which
    an emitted instruction does what the reference executor does. */
module Envelope {
  import opened Words
  import opened Mncs
  import opened Emit
  import opened IntegerLowering

  type Types = map<Id, Ty>

  predicate Typed(types: Types, id: Id, ty: Ty) { id in types && types[id] == ty }

  /** A sequence operand of element type `e` under a bound. */
  predicate TypedSequence(types: Types, id: Id, e: Ty, bound: Bound) {
    match bound
    case Exact(n) => Typed(types, id, TSeq(e, n))
    case UpTo(c) => Typed(types, id, TView(e, c))
  }

  function ElementType(ty: Ty): Ty {
    match ty
    case TSeq(e, _) => e
    case TView(e, _) => e
    case _ => ty
  }

  /** `MODEL_MAX_SEQUENCE_BOUND`. */
  const MAX_SEQUENCE_BOUND: nat := 4096

  predicate BoundOk(b: Bound) { (if b.Exact? then b.len else b.cap) <= MAX_SEQUENCE_BOUND }

  /** The instruction's operands and destination have the types it needs. */
  predicate WellTyped(m: Module, types: Types, inst: Inst) {
    && Dest(inst).Some? && Typed(types, inst.dest.id, inst.dest.ty)
    && match inst
       case Const(d, v) => EvaluateConst(d.ty, v).Yields?
       case Integer(d, op, intent, _, l, r) =>
         d.ty.TInt? && Typed(types, l, d.ty) && Typed(types, r, d.ty) && OperatorSupported(op, intent)
       case Compare(d, _, b, s, l, r) => d.ty == TBool && Typed(types, l, TInt(b, s)) && Typed(types, r, TInt(b, s))
       case Boolean(d, _, l, r) => d.ty == TBool && Typed(types, l, TBool) && Typed(types, r, TBool)
       case BooleanCompare(d, _, l, r) => d.ty == TBool && Typed(types, l, TBool) && Typed(types, r, TBool)
       case BooleanNot(d, x) => d.ty == TBool && Typed(types, x, TBool)
       case Convert(d, from, x) => d.ty.TInt? && Typed(types, x, from) && (from.TInt? || from.TBool?)
       case Select(d, c, t, f) => Typed(types, c, TBool) && Typed(types, t, d.ty) && Typed(types, f, d.ty)
       case SequenceConstruct(d, inputs) =>
         && d.ty.TSeq? && d.ty.len == |inputs| <= MAX_SEQUENCE_BOUND
         && forall i | 0 <= i < |inputs| :: Typed(types, inputs[i], d.ty.elem)
       case SequenceReplace(d, s, i, x, n, w, _) =>
         && d.ty.TSeq? && d.ty.len == n <= MAX_SEQUENCE_BOUND && w == SlotWidthOf(d.ty.elem)
         && Typed(types, s, d.ty) && Typed(types, i, U64_TYPE) && Typed(types, x, d.ty.elem)
       case SequenceCopy(d, into, at, s, start, n, srcBound, _, dstLength, w) =>
         && d.ty.TSeq? && d.ty.len == dstLength <= MAX_SEQUENCE_BOUND && w == SlotWidthOf(d.ty.elem)
         && Typed(types, into, d.ty) && TypedSequence(types, s, d.ty.elem, srcBound) && BoundOk(srcBound)
         && Typed(types, at, U64_TYPE) && Typed(types, start, U64_TYPE) && Typed(types, n, U64_TYPE)
       case SequenceProject(d, s, i, bound, _, w) =>
         && TypedSequence(types, s, d.ty, bound) && BoundOk(bound)
         && Typed(types, i, U64_TYPE) && w == SlotWidthOf(d.ty)
       case SequenceLength(d, bound, s) =>
         d.ty == U64_TYPE && s in types && TypedSequence(types, s, ElementType(types[s]), bound) && BoundOk(bound)
       case ViewConstruct(d, bound, cap, s, start, end) =>
         && d.ty.TView? && d.ty.cap == cap <= MAX_SEQUENCE_BOUND
         && TypedSequence(types, s, d.ty.elem, bound) && BoundOk(bound)
         && Typed(types, start, U64_TYPE) && Typed(types, end, U64_TYPE)
       case ViewNarrow(d, s, cap) =>
         && d.ty.TView? && d.ty.cap == cap <= MAX_SEQUENCE_BOUND
         && s in types && types[s].TView? && types[s].elem == d.ty.elem
       case BoundCheck(d, s, i, bound) =>
         && d.ty == U64_TYPE && s in types && TypedSequence(types, s, ElementType(types[s]), bound) && BoundOk(bound)
         && Typed(types, i, U64_TYPE)
       case Call(d, callee, args) =>
         && callee in m && m[callee].result == d.ty && |args| == |m[callee].params|
         && forall i | 0 <= i < |args| :: Typed(types, args[i], m[callee].params[i].ty)
       case _ => false
  }

  /** The operands an instruction reads. */
  function Uses(inst: Inst): seq<Id> {
    match inst
    case Const(_, _) => []
    case Integer(_, _, _, _, l, r) => [l, r]
    case Compare(_, _, _, _, l, r) => [l, r]
    case Boolean(_, _, l, r) => [l, r]
    case BooleanCompare(_, _, l, r) => [l, r]
    case BooleanNot(_, x) => [x]
    case Convert(_, _, x) => [x]
    case Select(_, c, t, f) => [c, t, f]
    case SequenceConstruct(_, inputs) => inputs
    case SequenceReplace(_, s, i, x, _, _, _) => [s, i, x]
    case SequenceCopy(_, d, at, s, start, n, _, _, _, _) => [d, at, s, start, n]
    case SequenceProject(_, s, i, _, _, _) => [s, i]
    case SequenceLength(_, _, s) => [s]
    case ViewConstruct(_, _, _, s, start, end) => [s, start, end]
    case ViewNarrow(_, s, _) => [s]
    case BoundCheck(_, s, i, _) => [s, i]
    case Call(_, _, args) => args
    case _ => []
  }

  predicate Available(ids: seq<Id>, have: set<Id>) { forall i | 0 <= i < |ids| :: ids[i] in have }

  // ---------- The envelope ----------

  /** A start past `2^63` is compared as a negative number: the guard then lets
      the range through, or overflows, unless the difference exceeds the capacity. */
  predicate ViewEnvelope(start: int, end: int, length: int, cap: nat) {
    start >= TWO_63 && end <= length ==> start > TWO_63 + end && end + TWO_64 - start > cap
  }

  /** The arena bytes that an instruction's new sequence needs: a slot an element. */
  function BytesOf(inst: Inst): nat {
    match inst
    case SequenceConstruct(_, inputs) => 8 * |inputs|
    case SequenceReplace(_, _, _, _, n, _, _) => 8 * n
    case SequenceCopy(_, _, _, _, _, _, _, _, n, _) => 8 * n
    case _ => 0
  }

  predicate WindowsValid(at: int, start: int, n: int, dstLength: nat, srcLength: nat) {
    at >= 0 && start >= 0 && n >= 0 && at + n <= dstLength && start + n <= srcLength
  }

  /** Whether the emitted instruction agrees with the reference executor on these
      operands. Static bounds evidence is taken at its word only where it is true. */
  predicate InEnvelope(inst: Inst, env: Env) {
    match inst
    case Integer(d, op, intent, permitted, l, r) =>
      IsInt(env, l) && IsInt(env, r) && d.ty.TInt? ==>
        IntegerEnvelope(op, d.ty.bits, d.ty.signed, intent, permitted, env[l].n, env[r].n)
    case Convert(d, from, x) =>
      IsInt(env, x) && from.TInt? && d.ty.TInt? ==>
        ConvertEnvelope(from.bits, from.signed, d.ty.bits, d.ty.signed, env[x].n)
    case SequenceReplace(_, s, i, _, n, _, evidence) =>
      !evidence.RuntimeChecked? && IsInt(env, i) ==> 0 <= env[i].n < n
    case SequenceCopy(_, _, at, s, start, n, _, evidence, dstLength, _) =>
      !evidence.RuntimeChecked? && IsInt(env, at) && IsInt(env, start) && IsInt(env, n) && IsSeq(env, s) ==>
        WindowsValid(env[at].n, env[start].n, env[n].n, dstLength, |env[s].elems|)
    case SequenceProject(_, s, i, _, evidence, _) =>
      !evidence.RuntimeChecked? && IsInt(env, i) && IsSeq(env, s) ==> 0 <= env[i].n < |env[s].elems|
    case ViewConstruct(_, _, cap, s, start, end) =>
      IsInt(env, start) && IsInt(env, end) && IsSeq(env, s) ==>
        ViewEnvelope(env[start].n, env[end].n, |env[s].elems|, cap)
    case _ => true
  }
}
