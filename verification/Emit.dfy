/** What the code generator writes: the C statements for each instruction and
    terminator, the names of the C variables, and the whole C function. */
module Emit {
  import opened Options
  import opened Words
  import C = CLang
  import opened Mncs

  // ---------- Representation of types ----------

  function CTypeOf(ty: Ty): C.CType {
    match ty
    case TInt(b, _) => if b.B64? then C.I64 else C.I32
    case TBool => C.I32
    case _ => C.U64
  }

  function SlotWidthOf(ty: Ty): SlotWidth {
    match ty
    case TInt(b, _) => if b.B64? then S64 else S32
    case TBool => S32
    case _ => S64
  }

  function CWidth(w: SlotWidth): C.Width { if w.S32? then C.W32 else C.W64 }

  // ---------- Names ----------

  function Digit(n: nat): char
    requires n < 10
  {
    "0123456789"[n]
  }

  function Decimal(n: nat): (s: string)
    ensures |s| > 0 && (|s| == 1 <==> n < 10)
  {
    if n < 10 then [Digit(n)] else Decimal(n / 10) + [Digit(n % 10)]
  }

  /** The name of the `n`-th distinct value. */
  function ValueName(n: nat): (s: string)
    ensures |s| > 1 && s[0] == 'v'
  {
    "v" + Decimal(n)
  }

  type Names = map<Id, string>

  /** Entering a value twice keeps its first name and uses up no number. */
  function Enter(names: Names, id: Id): Names {
    if id in names then names else names[id := ValueName(|names|)]
  }

  function NameAll(names: Names, ids: seq<Id>): Names
    decreases |ids|
  {
    if ids == [] then names else NameAll(Enter(names, ids[0]), ids[1..])
  }

  function NameOf(names: Names, id: Id): string { if id in names then names[id] else "v_missing" }

  // ---------- Lowering and flattening ----------

  function LowerStores(cell: Id, inputs: seq<Id>, width: SlotWidth, from: nat): seq<Inst>
    requires from <= |inputs|
    decreases |inputs| - from
  {
    if from == |inputs| then []
    else [CellStore(cell, from * 8, width, inputs[from])] + LowerStores(cell, inputs, width, from + 1)
  }

  /** Sequence construction becomes an allocation and one store an element. */
  function Lower(inst: Inst): Inst {
    match inst
    case SequenceConstruct(d, inputs) =>
      var elem := if d.ty.TSeq? then d.ty.elem else d.ty;
      Group([CellAlloc(d, |inputs| * 8)] + LowerStores(d.id, inputs, SlotWidthOf(elem), 0))
    case _ => inst
  }

  function LowerAll(insts: seq<Inst>): (r: seq<Inst>)
    ensures |r| == |insts|
  {
    seq(|insts|, i requires 0 <= i < |insts| => Lower(insts[i]))
  }

  function Flatten(insts: seq<Inst>): seq<Inst>
    decreases insts
  {
    if insts == [] then []
    else (if insts[0].Group? then Flatten(insts[0].insts) else [insts[0]]) + Flatten(insts[1..])
  }

  /** The destination of a flattened instruction, where it has one. */
  function Dest(inst: Inst): Option<Val> {
    match inst
    case CellStore(_, _, _, _) => None
    case Group(_) => None
    case _ => Some(inst.dest)
  }

  function Dests(insts: seq<Inst>): seq<Val> {
    if insts == [] then []
    else (if Dest(insts[0]).Some? then [Dest(insts[0]).value] else []) + Dests(insts[1..])
  }

  function BlockVals(b: Block): seq<Val> { b.params + Dests(Flatten(LowerAll(b.insts))) }

  function BlocksVals(bs: seq<Block>): seq<Val> {
    if bs == [] then [] else BlockVals(bs[0]) + BlocksVals(bs[1..])
  }

  /** Every value a function defines, in the order the generator meets them. */
  function AllVals(f: Function): seq<Val> { f.params + BlocksVals(f.blocks) }

  function IdsOf(vals: seq<Val>): (r: seq<Id>)
    ensures |r| == |vals|
  {
    seq(|vals|, i requires 0 <= i < |vals| => vals[i].id)
  }

  function NamesOf(f: Function): Names { NameAll(map[], IdsOf(AllVals(f))) }

  // ---------- Expressions ----------

  function Num(n: nat): C.Expr { C.Lit(n, C.NoSuffix) }

  function NumU(n: nat): C.Expr { C.Lit(n, C.SuffixU) }

  function NumULL(n: nat): C.Expr { C.Lit(n, C.SuffixULL) }

  function AsU64(x: string): C.Expr { C.Cast(C.U64, C.Var(x)) }

  /** The base address and the length that a sequence operand stands for. */
  function BaseOf(x: string, bound: Bound): C.Expr {
    if bound.Exact? then C.Var(x) else C.Cast(C.U64, C.Cast(C.U32, C.Var(x)))
  }

  function LengthOf(x: string, bound: Bound): C.Expr {
    if bound.Exact? then NumULL(bound.len) else C.Bin(C.Shr, C.Var(x), Num(32))
  }

  /** `if (test) { *mncs_status = 1; *mncs_value = 0; return; }` */
  function TrapIf(test: C.Expr): C.Stmt { C.If(test, [C.Leave(1)], []) }

  function IntegerLiteral(n: int): C.Expr { if n < 0 then C.Neg(Num(-n)) else Num(n) }

  // ---------- Integer arithmetic ----------

  function MaskLiteral(b: IntWidth): C.Expr { NumULL(IntModulus(b) - 1) }

  function WideType(signed: bool): C.CType { if signed then C.I128 else C.U128 }

  /** An operand cell widened to 128 bits, through the unsigned cell width when unsigned. */
  function Widen(b: IntWidth, signed: bool, x: string): C.Expr {
    if signed then C.Cast(C.I128, C.Var(x))
    else if b.B64? then C.Cast(C.U128, C.Cast(C.U64, C.Var(x)))
    else C.Cast(C.U128, C.Cast(C.U32, C.Var(x)))
  }

  function MaxLiteral(b: IntWidth, signed: bool): C.Expr {
    C.Lit(Maximum(b, signed), if signed then C.SuffixLL else C.SuffixULL)
  }

  function MinLiteral(b: IntWidth, signed: bool): C.Expr {
    if !signed then NumULL(0)
    else if b.B64? then C.Bin(C.Sub, C.Neg(C.Lit(TWO_63 - 1, C.SuffixLL)), Num(1))
    else C.Neg(C.Lit(IntModulus(b) / 2, C.SuffixLL))
  }

  /** The `INTn_MIN` macro. */
  function MinMacro(b: IntWidth): C.Expr { C.Bin(C.Sub, C.Neg(Num(IntModulus(b) / 2 - 1)), Num(1)) }

  function ArithmeticOp(op: IntOp): C.BinaryOp {
    match op
    case OpSub => C.Sub
    case OpMul => C.Mul
    case OpDiv => C.Div
    case OpMod => C.Rem
    case OpAnd => C.And
    case OpOr => C.Or
    case OpXor => C.Xor
    case _ => C.Add
  }

  function ShiftCount(b: IntWidth, r: string): C.Expr { C.Bin(C.Rem, C.Cast(C.U32, C.Var(r)), NumU(BitCount(b))) }

  function ShiftedWord(b: IntWidth, r: string): C.Expr {
    var shifted := C.Bin(C.Shl, C.Var("mncs_w"), ShiftCount(b, r));
    if b.B64? then shifted else C.Bin(C.And, shifted, MaskLiteral(b))
  }

  function ShiftLeftCode(d: string, b: IntWidth, cty: C.CType, l: string, r: string): seq<C.Stmt> {
    [ C.Declare(C.U64, "mncs_w", C.Cast(C.U64, AsU64(l))),
      C.Assign("mncs_w", ShiftedWord(b, r)),
      C.Assign(d, C.Cast(cty, C.Var("mncs_w"))) ]
  }

  function ShiftRightExpr(b: IntWidth, signed: bool, l: string, r: string): C.Expr {
    if signed then
      C.Cast(C.I64, C.BitNot(C.Cast(C.U64, C.Bin(C.Shr, C.BitNot(C.Cast(C.I64, C.Var(l))), ShiftCount(b, r)))))
    else
      C.Bin(C.Shr, C.Bin(C.And, AsU64(l), MaskLiteral(b)), ShiftCount(b, r))
  }

  /** The cast binds to the left operand alone, as it does in the emitted text. */
  function QuotientExpr(op: IntOp, b: IntWidth, signed: bool, cty: C.CType, l: string, r: string): C.Expr {
    if signed then C.Bin(ArithmeticOp(op), C.Cast(cty, C.Var(l)), C.Var(r))
    else
      var u := if b.B64? then C.U64 else C.U32;
      C.Bin(ArithmeticOp(op), C.Cast(cty, C.Cast(u, C.Var(l))), C.Cast(u, C.Var(r)))
  }

  function DivisionCode(d: string, op: IntOp, b: IntWidth, signed: bool, cty: C.CType, l: string, r: string): seq<C.Stmt> {
    var zero := TrapIf(C.Bin(C.Eq, C.Var(r), Num(0)));
    var edge := C.Bin(C.LogicalAnd, C.Bin(C.Eq, C.Var(l), MinMacro(b)), C.Bin(C.Eq, C.Var(r), C.Neg(Num(1))));
    var divide := C.Assign(d, QuotientExpr(op, b, signed, cty, l, r));
    if !signed then [zero, divide]
    else if op.OpDiv? then [zero, TrapIf(edge), divide]
    else [zero, C.If(edge, [C.Assign(d, C.Cast(cty, Num(0)))], [divide])]
  }

  function WideCode(b: IntWidth, signed: bool, op: IntOp, l: string, r: string): C.Stmt {
    C.Declare(WideType(signed), "mncs_wide", C.Bin(ArithmeticOp(op), Widen(b, signed, l), Widen(b, signed, r)))
  }

  function Above(b: IntWidth, signed: bool): C.Expr { C.Bin(C.Gt, C.Var("mncs_wide"), MaxLiteral(b, signed)) }

  function Below(b: IntWidth, signed: bool): C.Expr { C.Bin(C.Lt, C.Var("mncs_wide"), MinLiteral(b, signed)) }

  function CheckedCode(d: string, op: IntOp, b: IntWidth, signed: bool, cty: C.CType, l: string, r: string): seq<C.Stmt> {
    [ WideCode(b, signed, op, l, r),
      TrapIf(C.Bin(C.LogicalOr, Above(b, signed), Below(b, signed))),
      C.Assign(d, C.Cast(cty, C.Var("mncs_wide"))) ]
  }

  function SaturatingCode(d: string, op: IntOp, b: IntWidth, signed: bool, cty: C.CType, l: string, r: string): seq<C.Stmt> {
    [ WideCode(b, signed, op, l, r),
      C.If(Above(b, signed), [C.Assign("mncs_wide", MaxLiteral(b, signed))], []),
      C.If(Below(b, signed), [C.Assign("mncs_wide", MinLiteral(b, signed))], []),
      C.Assign(d, C.Cast(cty, C.Var("mncs_wide"))) ]
  }

  function WrappingExpr(op: IntOp, b: IntWidth, cty: C.CType, l: string, r: string): C.Expr {
    C.Cast(cty, C.Bin(C.And, C.Cast(C.U64, C.Bin(ArithmeticOp(op), AsU64(l), AsU64(r))), MaskLiteral(b)))
  }

  function IntegerCode(d: string, ty: Ty, op: IntOp, intent: Intent, permitted: bool, l: string, r: string): seq<C.Stmt>
    requires ty.TInt?
  {
    var b, signed, cty := ty.bits, ty.signed, CTypeOf(ty);
    if IsBitwise(op) then [C.Assign(d, C.Cast(cty, C.Bin(ArithmeticOp(op), AsU64(l), AsU64(r))))]
    else if op.OpShl? then ShiftLeftCode(d, b, cty, l, r)
    else if op.OpShr? then [C.Assign(d, C.Cast(cty, ShiftRightExpr(b, signed, l, r)))]
    else if IsDivision(op) then DivisionCode(d, op, b, signed, cty, l, r)
    else if (intent.Checked? || intent.Trapping?) && !permitted then CheckedCode(d, op, b, signed, cty, l, r)
    else if intent.Saturating? then SaturatingCode(d, op, b, signed, cty, l, r)
    else [C.Assign(d, WrappingExpr(op, b, cty, l, r))]
  }

  // ---------- Comparisons and selection ----------

  function PredicateOp(p: Predicate): C.BinaryOp {
    match p
    case PEq => C.Eq
    case PNe => C.Ne
    case PLt => C.Lt
    case PLe => C.Le
    case PGt => C.Gt
    case PGe => C.Ge
  }

  function CompareExpr(p: Predicate, b: IntWidth, signed: bool, l: string, r: string): C.Expr {
    if signed || p.PEq? || p.PNe? then C.Bin(PredicateOp(p), C.Var(l), C.Var(r))
    else
      var u := match b case B8 => C.U8 case B16 => C.U16 case B32 => C.U32 case B64 => C.U64;
      C.Bin(PredicateOp(p), C.Cast(u, C.Var(l)), C.Cast(u, C.Var(r)))
  }

  /** A blend of bit patterns, with no branch on the condition. */
  function SelectCode(d: string, cty: C.CType, c: string, t: string, f: string): seq<C.Stmt> {
    [ C.Declare(C.U64, "mncs_mask", C.Bin(C.Sub, NumU(0), AsU64(c))),
      C.Declare(C.U64, "mncs_t", AsU64(t)),
      C.Declare(C.U64, "mncs_f", AsU64(f)),
      C.Assign(d, C.Cast(cty, C.Bin(C.Or,
        C.Bin(C.And, C.Var("mncs_t"), C.Var("mncs_mask")),
        C.Bin(C.And, C.Var("mncs_f"), C.BitNot(C.Var("mncs_mask")))))) ]
  }

  // ---------- Sequences and views ----------

  function SlotAddress(base: C.Expr, index: string): C.Expr {
    C.Bin(C.Add, base, C.Bin(C.Mul, AsU64(index), NumU(8)))
  }

  function LaneAddress(x: string, lane: nat): C.Expr { C.Bin(C.Add, C.Var(x), NumU(lane * 8)) }

  function IndexGuard(index: string, length: C.Expr): C.Stmt {
    TrapIf(C.Bin(C.Ge, AsU64(index), length))
  }

  function CopyLanes(d: string, s: string, w: SlotWidth, from: nat, length: nat): seq<C.Stmt>
    requires from <= length
    decreases length - from
  {
    if from == length then []
    else [C.CopySlot(CWidth(w), LaneAddress(d, from), LaneAddress(s, from))] + CopyLanes(d, s, w, from + 1, length)
  }

  function ReplaceCode(d: string, s: string, index: string, x: string, length: nat, w: SlotWidth, evidence: Evidence): seq<C.Stmt> {
    (if evidence.RuntimeChecked? then [IndexGuard(index, NumULL(length))] else [])
    + [C.Alloc(d, NumU(length * 8))]
    + CopyLanes(d, s, w, 0, length)
    + [C.Store(CWidth(w), SlotAddress(C.Var(d), index), C.Cast(C.SlotType(CWidth(w)), C.Var(x)))]
  }

  function CopyGuard(at: string, start: string, n: string, dstLength: nat, srcLength: C.Expr): seq<C.Stmt> {
    [ C.Declare(C.U64, "c_dend", C.Bin(C.Add, AsU64(at), AsU64(n))),
      C.Declare(C.U64, "c_send", C.Bin(C.Add, AsU64(start), AsU64(n))),
      TrapIf(C.Bin(C.LogicalOr, C.Bin(C.LogicalOr, C.Bin(C.LogicalOr,
        C.Bin(C.Lt, C.Var("c_dend"), AsU64(at)),
        C.Bin(C.Gt, C.Var("c_dend"), NumULL(dstLength))),
        C.Bin(C.Lt, C.Var("c_send"), AsU64(start))),
        C.Bin(C.Gt, C.Var("c_send"), C.Cast(C.U64, srcLength)))) ]
  }

  /** One lane of the branchless span copy: the source slot when the lane falls
      in the window, the lane's own destination slot otherwise. */
  function SpanLane(d: string, into: string, at: string, base: C.Expr, start: string, n: string, w: SlotWidth, lane: nat): seq<C.Stmt> {
    var slot := C.SlotType(CWidth(w));
    [ C.Declare(C.U64, "c_k", C.Bin(C.Sub, NumULL(lane), AsU64(at))),
      C.Declare(C.U64, "c_in", C.Cond(
        C.Bin(C.And, C.Bin(C.Le, AsU64(at), NumULL(lane)), C.Bin(C.Lt, C.Var("c_k"), AsU64(n))),
        NumU(1), NumU(0))),
      C.Declare(C.U64, "c_saddr", C.Cond(C.Var("c_in"),
        C.Bin(C.Add, base, C.Bin(C.Mul, C.Bin(C.Add, AsU64(start), C.Var("c_k")), NumU(8))),
        C.Bin(C.Add, AsU64(into), NumU(lane * 8)))),
      C.Declare(slot, "c_s", Num(0)),
      C.Load("c_s", slot, CWidth(w), C.Var("c_saddr")),
      C.Declare(slot, "c_d", Num(0)),
      C.Load("c_d", slot, CWidth(w), C.Bin(C.Add, AsU64(into), NumU(lane * 8))),
      C.Store(CWidth(w), LaneAddress(d, lane), C.Cond(C.Var("c_in"), C.Var("c_s"), C.Var("c_d"))) ]
  }

  function SpanLanes(d: string, into: string, at: string, base: C.Expr, start: string, n: string, w: SlotWidth, from: nat, length: nat): seq<C.Stmt>
    requires from <= length
    decreases length - from
  {
    if from == length then []
    else SpanLane(d, into, at, base, start, n, w, from) + SpanLanes(d, into, at, base, start, n, w, from + 1, length)
  }

  function CopyCode(d: string, into: string, at: string, s: string, start: string, n: string,
                    srcBound: Bound, evidence: Evidence, dstLength: nat, w: SlotWidth): seq<C.Stmt> {
    (if evidence.RuntimeChecked? then CopyGuard(at, start, n, dstLength, LengthOf(s, srcBound)) else [])
    + [C.Alloc(d, NumU(dstLength * 8))]
    + SpanLanes(d, into, at, BaseOf(s, srcBound), start, n, w, 0, dstLength)
  }

  function ProjectCode(d: string, cty: C.CType, s: string, index: string, bound: Bound, evidence: Evidence, w: SlotWidth): seq<C.Stmt> {
    (if evidence.RuntimeChecked? then [IndexGuard(index, LengthOf(s, bound))] else [])
    + [C.Load(d, cty, CWidth(w), SlotAddress(BaseOf(s, bound), index))]
  }

  function ViewGuard(s: string, bound: Bound, start: string, end: string, cap: nat): C.Stmt {
    TrapIf(C.Bin(C.LogicalOr, C.Bin(C.LogicalOr,
      C.Bin(C.Gt, C.Var(start), C.Var(end)),
      C.Bin(C.Gt, C.Var(end), LengthOf(s, bound))),
      C.Bin(C.Gt, C.Bin(C.Sub, C.Var(end), C.Var(start)), NumULL(cap))))
  }

  function ViewDescriptor(s: string, bound: Bound, start: string, end: string): C.Expr {
    C.Bin(C.Or,
      C.Cast(C.U64, C.Cast(C.U32, C.Bin(C.Add, BaseOf(s, bound), C.Bin(C.Mul, C.Var(start), NumU(8))))),
      C.Bin(C.Shl, C.Cast(C.U64, C.Bin(C.Sub, C.Var(end), C.Var(start))), Num(32)))
  }

  // ---------- Instructions, transfers, blocks ----------

  function VarArgs(names: Names, args: seq<Id>): seq<C.Expr> {
    seq(|args|, i requires 0 <= i < |args| => C.Var(NameOf(names, args[i])))
  }

  /** The statements for one flattened instruction. */
  function InstCode(names: Names, inst: Inst): seq<C.Stmt> {
    match inst
    case Const(d, v) => [C.Assign(NameOf(names, d.id), C.Cast(CTypeOf(d.ty), IntegerLiteral(v)))]
    case Integer(d, op, intent, permitted, l, r) =>
      if d.ty.TInt? then IntegerCode(NameOf(names, d.id), d.ty, op, intent, permitted, NameOf(names, l), NameOf(names, r)) else []
    case Compare(d, p, b, s, l, r) =>
      [C.Assign(NameOf(names, d.id), C.Cast(CTypeOf(d.ty), CompareExpr(p, b, s, NameOf(names, l), NameOf(names, r))))]
    case Boolean(d, conj, l, r) =>
      [C.Assign(NameOf(names, d.id), C.Cast(CTypeOf(d.ty),
        C.Bin(if conj then C.LogicalAnd else C.LogicalOr, C.Var(NameOf(names, l)), C.Var(NameOf(names, r)))))]
    case BooleanCompare(d, equal, l, r) =>
      [C.Assign(NameOf(names, d.id), C.Cast(CTypeOf(d.ty),
        C.Bin(if equal then C.Eq else C.Ne, C.Var(NameOf(names, l)), C.Var(NameOf(names, r)))))]
    case BooleanNot(d, x) =>
      [C.Assign(NameOf(names, d.id), C.Cast(CTypeOf(d.ty), C.LogicalNot(C.Var(NameOf(names, x)))))]
    case Convert(d, _, x) => [C.Assign(NameOf(names, d.id), C.Cast(CTypeOf(d.ty), C.Var(NameOf(names, x))))]
    case Select(d, c, t, f) =>
      SelectCode(NameOf(names, d.id), CTypeOf(d.ty), NameOf(names, c), NameOf(names, t), NameOf(names, f))
    case SequenceReplace(d, s, i, x, n, w, evidence) =>
      ReplaceCode(NameOf(names, d.id), NameOf(names, s), NameOf(names, i), NameOf(names, x), n, w, evidence)
    case SequenceCopy(d, into, at, s, start, n, srcBound, evidence, dstLength, w) =>
      CopyCode(NameOf(names, d.id), NameOf(names, into), NameOf(names, at), NameOf(names, s), NameOf(names, start),
               NameOf(names, n), srcBound, evidence, dstLength, w)
    case SequenceProject(d, s, i, bound, evidence, w) =>
      ProjectCode(NameOf(names, d.id), CTypeOf(d.ty), NameOf(names, s), NameOf(names, i), bound, evidence, w)
    case SequenceLength(d, bound, s) =>
      [C.Assign(NameOf(names, d.id), C.Cast(CTypeOf(d.ty), LengthOf(NameOf(names, s), bound)))]
    case ViewConstruct(d, bound, cap, s, start, end) =>
      [ ViewGuard(NameOf(names, s), bound, NameOf(names, start), NameOf(names, end), cap),
        C.Assign(NameOf(names, d.id), ViewDescriptor(NameOf(names, s), bound, NameOf(names, start), NameOf(names, end))) ]
    case ViewNarrow(d, s, cap) =>
      [ C.Assign(NameOf(names, d.id), C.Var(NameOf(names, s))),
        TrapIf(C.Bin(C.Gt, C.Bin(C.Shr, C.Var(NameOf(names, d.id)), Num(32)), NumULL(cap))) ]
    case BoundCheck(d, s, i, bound) =>
      [ IndexGuard(NameOf(names, i), LengthOf(NameOf(names, s), bound)),
        C.Assign(NameOf(names, d.id), C.Var(NameOf(names, i))) ]
    case Call(d, callee, args) =>
      [C.Call(callee, VarArgs(names, args)), C.ReturnIfStatus, C.TakeValue(NameOf(names, d.id), CTypeOf(d.ty))]
    case CellAlloc(d, bytes) => [C.Alloc(NameOf(names, d.id), Num(bytes))]
    case CellStore(c, offset, w, v) =>
      [C.Store(CWidth(w), C.Bin(C.Add, C.Var(NameOf(names, c)), Num(offset)),
               C.Cast(C.SlotType(CWidth(w)), C.Var(NameOf(names, v))))]
    case SequenceConstruct(_, _) => []
    case Group(_) => []
  }

  function InstsCode(names: Names, insts: seq<Inst>): seq<C.Stmt> {
    if insts == [] then [] else InstCode(names, insts[0]) + InstsCode(names, insts[1..])
  }

  function FindBlock(blocks: seq<Block>, id: Id): Option<nat> {
    if blocks == [] then None
    else if blocks[0].id == id then Some(0)
    else
      var r := FindBlock(blocks[1..], id);
      if r.Some? then Some(r.value + 1) else None
  }

  /** Parameters are assigned one after another, and a parameter passed to itself is skipped. */
  function TransferCode(names: Names, params: seq<Val>, args: seq<Id>): seq<C.Stmt>
    decreases |params|
  {
    if params == [] || args == [] then []
    else
      (if params[0].id != args[0] then [C.Assign(NameOf(names, params[0].id), C.Var(NameOf(names, args[0])))] else [])
      + TransferCode(names, params[1..], args[1..])
  }

  function JumpCode(names: Names, blocks: seq<Block>, target: Id, args: seq<Id>): seq<C.Stmt> {
    var k := FindBlock(blocks, target);
    (if k.Some? && k.value < |blocks| then TransferCode(names, blocks[k.value].params, args) else [])
    + [C.Goto(if k.Some? then k.value else 0)]
  }

  function TermCode(names: Names, f: Function, term: Term, hasArena: bool): seq<C.Stmt> {
    match term
    case Return(v) =>
      (if hasArena then [C.LeaveIfFailed] else []) + [C.ReturnValue(C.Var(NameOf(names, v)))]
    case Jump(t, args) => JumpCode(names, f.blocks, t, args)
    case Branch(c, t, targs, e, eargs) =>
      [C.If(C.Var(NameOf(names, c)), JumpCode(names, f.blocks, t, targs), JumpCode(names, f.blocks, e, eargs))]
    case Fail => [C.Leave(1)]
  }

  function BlockCode(names: Names, f: Function, b: Block, hasArena: bool): seq<C.Stmt> {
    InstsCode(names, Flatten(LowerAll(b.insts))) + TermCode(names, f, b.term, hasArena)
  }

  function CasesFrom(names: Names, f: Function, from: nat, hasArena: bool): seq<seq<C.Stmt>>
    requires from <= |f.blocks|
    decreases |f.blocks| - from
  {
    if from == |f.blocks| then []
    else [BlockCode(names, f, f.blocks[from], hasArena)] + CasesFrom(names, f, from + 1, hasArena)
  }

  // ---------- Functions and modules ----------

  /** Each id is declared at its first occurrence only, and parameters never again. */
  function Declarations(names: Names, declared: set<Id>, vals: seq<Val>): seq<C.Decl>
    decreases |vals|
  {
    if vals == [] then []
    else
      (if vals[0].id in declared then [] else [C.Decl(CTypeOf(vals[0].ty), NameOf(names, vals[0].id))])
      + Declarations(names, declared + {vals[0].id}, vals[1..])
  }

  function ParamDecls(names: Names, params: seq<Val>): (r: seq<C.Decl>)
    ensures |r| == |params|
  {
    seq(|params|, i requires 0 <= i < |params| => C.Decl(CTypeOf(params[i].ty), NameOf(names, params[i].id)))
  }

  function IdSet(vals: seq<Val>): set<Id> { set i | 0 <= i < |vals| :: vals[i].id }

  /** `MODEL_MAX_CALL_DEPTH`. */
  const MAX_CALL_DEPTH: nat := 1024

  function Prologue(hasArena: bool): seq<C.Stmt> {
    [C.DepthGuard(MAX_CALL_DEPTH)] + (if hasArena then [C.ResetAtTop] else [])
  }

  function FunctionCode(f: Function, hasArena: bool): C.Function {
    var names := NamesOf(f);
    C.Function(
      ParamDecls(names, f.params),
      Declarations(names, IdSet(f.params), BlocksVals(f.blocks)),
      Prologue(hasArena),
      CasesFrom(names, f, 0, hasArena))
  }

  predicate UsesCells(inst: Inst) {
    inst.CellAlloc? || inst.CellStore? || inst.SequenceReplace? || inst.SequenceCopy? || inst.SequenceProject?
  }

  predicate FunctionUsesCells(f: Function) {
    || (exists p | p in f.params :: p.ty.TSeq?)
    || f.result.TSeq?
    || (exists b | b in f.blocks :: exists i | i in Flatten(LowerAll(b.insts)) :: UsesCells(i))
  }

  /** Whether the module's C text declares the arena and its flags. */
  predicate NeedsArena(m: Module) {
    exists n | n in m ::
      || FunctionUsesCells(m[n])
      || (exists p | p in m[n].params :: p.ty.TView?)
      || m[n].result.TView?
  }

  function ModuleCode(m: Module): C.Program {
    map n | n in m :: FunctionCode(m[n], NeedsArena(m))
  }
}
