/** The fragment of C11 that the code generator emits: integer expressions with
    their conversions and undefined cases, statements, activations, and the
    bump-allocated arena runtime. */
module CLang {
  import opened Words

  // ---------- Integer types and conversions ----------

  datatype CType = U8 | U16 | I32 | U32 | I64 | U64 | I128 | U128

  predicate Signed(t: CType) { t.I32? || t.I64? || t.I128? }

  function WidthOf(t: CType): nat {
    match t
    case U8 => 8
    case U16 => 16
    case I32 | U32 => 32
    case I64 | U64 => 64
    case I128 | U128 => 128
  }

  function ModulusOf(t: CType): (m: int)
    ensures m > 0 && m % 2 == 0
  {
    match t
    case U8 => 0x100
    case U16 => 0x1_0000
    case I32 | U32 => TWO_32
    case I64 | U64 => TWO_64
    case I128 | U128 => TWO_128
  }

  /** Conversion to an integer type (ISO/IEC 9899:2011, section 6.3.1.3; the
      implementation-defined signed case wraps, as gcc and clang do). */
  function ToType(t: CType, n: int): int {
    Wrap(n, ModulusOf(t), Signed(t))
  }

  predicate Fits(t: CType, n: int) {
    if Signed(t) then -(ModulusOf(t) / 2) <= n < ModulusOf(t) / 2 else 0 <= n < ModulusOf(t)
  }

  lemma ToTypeFixes(t: CType, n: int)
    requires Fits(t, n)
    ensures ToType(t, n) == n
  {
    WrapFixes(n, ModulusOf(t), Signed(t));
  }

  function Promote(t: CType): CType { if t.U8? || t.U16? then I32 else t }

  /** Usual arithmetic conversions (section 6.3.1.8). */
  function Common(a: CType, b: CType): CType {
    var p, q := Promote(a), Promote(b);
    if p == q then p
    else if Signed(p) == Signed(q) then if WidthOf(p) < WidthOf(q) then q else p
    else
      var u, s := if Signed(p) then q else p, if Signed(p) then p else q;
      if WidthOf(u) >= WidthOf(s) then u else s
  }

  // ---------- Expressions ----------

  datatype Suffix = NoSuffix | SuffixU | SuffixLL | SuffixULL

  datatype BinaryOp =
    | Add | Sub | Mul | Div | Rem
    | And | Or | Xor | Shl | Shr
    | Lt | Le | Gt | Ge | Eq | Ne
    | LogicalAnd | LogicalOr

  datatype Expr =
    | Var(name: string)
    | Lit(n: nat, suffix: Suffix)
    | Cast(ty: CType, e: Expr)
    | Neg(e: Expr)
    | BitNot(e: Expr)
    | LogicalNot(e: Expr)
    | Bin(op: BinaryOp, left: Expr, right: Expr)
    | Cond(test: Expr, whenTrue: Expr, whenFalse: Expr)

  datatype CValue = CValue(ty: CType, n: int)

  /** `Undef` is undefined behaviour, or the use of a variable without a value. */
  datatype EvalResult = Ok(v: CValue) | Undef

  /** The type of an integer constant (section 6.4.4.1); an unsuffixed constant
      too large for every signed type is taken as unsigned, as gcc and clang do. */
  function LiteralType(n: nat, suffix: Suffix): CType {
    match suffix
    case NoSuffix => if n < TWO_31 then I32 else if n < TWO_63 then I64 else U64
    case SuffixU => if n < TWO_32 then U32 else U64
    case SuffixLL => I64
    case SuffixULL => U64
  }

  predicate IsComparison(op: BinaryOp) {
    op.Lt? || op.Le? || op.Gt? || op.Ge? || op.Eq? || op.Ne? || op.LogicalAnd? || op.LogicalOr?
  }

  function TypeOf(e: Expr, types: map<string, CType>): CType {
    match e
    case Var(x) => if x in types then types[x] else I32
    case Lit(n, suffix) => LiteralType(n, suffix)
    case Cast(t, _) => t
    case Neg(a) => Promote(TypeOf(a, types))
    case BitNot(a) => Promote(TypeOf(a, types))
    case LogicalNot(_) => I32
    case Bin(op, a, b) =>
      if IsComparison(op) then I32
      else if op.Shl? || op.Shr? then Promote(TypeOf(a, types))
      else Common(TypeOf(a, types), TypeOf(b, types))
    case Cond(_, a, b) => Common(TypeOf(a, types), TypeOf(b, types))
  }

  function Truth(b: bool): EvalResult { Ok(CValue(I32, if b then 1 else 0)) }

  /** An unsigned result wraps; a signed result out of range is undefined (6.5 paragraph 5). */
  function Result(t: CType, n: int): EvalResult {
    if Signed(t) then if Fits(t, n) then Ok(CValue(t, n)) else Undef
    else Ok(CValue(t, n % ModulusOf(t)))
  }

  function Pattern(t: CType, n: int): (p: nat) { n % ModulusOf(t) }

  function Compare(op: BinaryOp, a: int, b: int): bool {
    match op
    case Lt => a < b
    case Le => a <= b
    case Gt => a > b
    case Ge => a >= b
    case Eq => a == b
    case _ => a != b
  }

  /** Operators whose operands undergo the usual arithmetic conversions to `t`. */
  function Arithmetic(op: BinaryOp, t: CType, a: int, b: int): EvalResult {
    match op
    case Add => Result(t, a + b)
    case Sub => Result(t, a - b)
    case Mul => Result(t, a * b)
    case Div => if b == 0 then Undef else Result(t, TruncDiv(a, b))
    case Rem => if b == 0 || !Fits(t, TruncDiv(a, b)) then Undef else Result(t, TruncRem(a, b))
    case And => Ok(CValue(t, ToType(t, Bitwise(BitAnd, Pattern(t, a), Pattern(t, b), WidthOf(t)))))
    case Or => Ok(CValue(t, ToType(t, Bitwise(BitOr, Pattern(t, a), Pattern(t, b), WidthOf(t)))))
    case Xor => Ok(CValue(t, ToType(t, Bitwise(BitXor, Pattern(t, a), Pattern(t, b), WidthOf(t)))))
    case _ => Truth(Compare(op, a, b))
  }

  /** Section 6.5.7; `>>` of a negative value is arithmetic, as in gcc and clang. */
  function Shift(op: BinaryOp, t: CType, a: int, count: int): EvalResult {
    if !(0 <= count < WidthOf(t)) then Undef
    else if op.Shr? then Ok(CValue(t, a / Pow2(count)))
    else if Signed(t) then if a < 0 then Undef else Result(t, a * Pow2(count))
    else Result(t, a * Pow2(count))
  }

  function Binary(op: BinaryOp, x: CValue, y: CValue): EvalResult {
    if op.Shl? || op.Shr? then
      var t := Promote(x.ty);
      Shift(op, t, ToType(t, x.n), y.n)
    else
      var t := Common(x.ty, y.ty);
      Arithmetic(op, t, ToType(t, x.n), ToType(t, y.n))
  }

  function Unary(e: Expr, x: CValue): EvalResult {
    var t := Promote(x.ty);
    var a := ToType(t, x.n);
    match e
    case Neg(_) => Result(t, -a)
    case BitNot(_) => Ok(CValue(t, ToType(t, -a - 1)))
    case Cast(to, _) => Ok(CValue(to, ToType(to, x.n)))
    case _ => Truth(x.n == 0)
  }

  /** Local variables: the declared type of each name, and the values assigned so far. */
  datatype Locals = Locals(types: map<string, CType>, values: map<string, int>)

  function Eval(e: Expr, vars: Locals): EvalResult
    decreases e
  {
    match e
    case Var(x) =>
      if x in vars.types && x in vars.values then Ok(CValue(vars.types[x], vars.values[x])) else Undef
    case Lit(n, suffix) => Ok(CValue(LiteralType(n, suffix), n))
    case Bin(op, a, b) =>
      var x := Eval(a, vars);
      if x.Undef? then Undef
      else if op.LogicalOr? && x.v.n != 0 then Truth(true)
      else if op.LogicalAnd? && x.v.n == 0 then Truth(false)
      else
        var y := Eval(b, vars);
        if y.Undef? then Undef
        else if op.LogicalOr? || op.LogicalAnd? then Truth(y.v.n != 0)
        else Binary(op, x.v, y.v)
    case Cond(c, a, b) =>
      var x := Eval(c, vars);
      if x.Undef? then Undef
      else
        var y := if x.v.n != 0 then Eval(a, vars) else Eval(b, vars);
        var t := TypeOf(e, vars.types);
        if y.Undef? then Undef else Ok(CValue(t, ToType(t, y.v.n)))
    case _ =>
      var x := Eval(e.e, vars);
      if x.Undef? then Undef else Unary(e, x.v)
  }

  // ---------- The arena runtime ----------

  /** `NATIVE_ARENA_BYTES`. */
  const ARENA_BYTES: int := 0x100_0000

  /** The process-wide state of a compiled module, with the two out-parameters
      that every activation shares. */
  datatype Memory = Memory(arena: seq<int>, bump: int, failed: bool, exhausted: bool, status: int, value: int)
  {
    predicate Ok() {
      && |arena| == ARENA_BYTES
      && (forall i | 0 <= i < ARENA_BYTES :: 0 <= arena[i] < 256)
      && 0 <= bump < TWO_64
    }

    function Exhaust(): Memory { this.(failed := true, exhausted := true) }
    function Fault(): Memory { this.(failed := true) }
  }

  datatype Width = W32 | W64

  function SlotBytes(w: Width): nat { if w.W32? then 4 else 8 }

  function SlotType(w: Width): CType { if w.W32? then U32 else U64 }

  /** `mncs_cell_alloc`. */
  function CellAlloc(m: Memory, bytes: int): (r: (Memory, int)) {
    if m.failed then (m, 0)
    else if bytes > ARENA_BYTES then (m.Exhaust(), 0)
    else if m.bump > ARENA_BYTES then (m.Exhaust(), 0)
    else
      var base := Bitwise(BitAnd, (m.bump + 7) % TWO_64, TWO_64 - 8, 64);
      if base > ARENA_BYTES - bytes then (m.Exhaust(), 0)
      else (m.(bump := base + bytes), base)
  }

  function WriteBytes(arena: seq<int>, at: nat, bs: seq<int>): seq<int>
    requires at + |bs| <= |arena|
  {
    arena[..at] + bs + arena[at + |bs|..]
  }

  /** `mncs_slot_store32` and `mncs_slot_store64`. */
  function SlotStore(m: Memory, w: Width, at: nat, v: nat): Memory {
    if m.failed then m
    else if at > ARENA_BYTES - SlotBytes(w) || at + SlotBytes(w) > |m.arena| then m.Fault()
    else m.(arena := WriteBytes(m.arena, at, ToBytes(v, SlotBytes(w))))
  }

  /** The slot's contents, for an address the guard admits. */
  function SlotAt(m: Memory, w: Width, at: nat): (v: nat)
  {
    if m.Ok() && at + SlotBytes(w) <= ARENA_BYTES then FromBytes(m.arena[at..at + SlotBytes(w)]) else 0
  }

  /** `mncs_slot_load32` and `mncs_slot_load64`. */
  function SlotLoad(m: Memory, w: Width, at: nat): (Memory, nat) {
    if m.failed then (m, 0)
    else if at > ARENA_BYTES - SlotBytes(w) then (m.Fault(), 0)
    else (m, SlotAt(m, w, at))
  }

  // ---------- Statements ----------

  datatype Stmt =
    | Declare(ty: CType, name: string, e: Expr)            // ty name = e;
    | Assign(name: string, e: Expr)                        // name = e;
    | If(test: Expr, thn: seq<Stmt>, els: seq<Stmt>)
    | Leave(code: int)                                     // *mncs_status = code; *mncs_value = 0; return;
    | Alloc(name: string, bytes: Expr)                     // name = mncs_cell_alloc(bytes);
    | Load(name: string, ty: CType, w: Width, at: Expr)    // name = (ty)mncs_slot_load(mncs_arena, at);
    | Store(w: Width, at: Expr, e: Expr)                   // mncs_slot_store(mncs_arena, at, e);
    | CopySlot(w: Width, to: Expr, from: Expr)             // mncs_slot_store(mncs_arena, to, mncs_slot_load(mncs_arena, from));
    | DepthGuard(limit: int)                               // if (mncs_depth > limit) { status 3; value 0; return; }
    | ResetAtTop                                           // if (mncs_depth == 0) { mncs_failed = 0; mncs_exhausted = 0; }
    | LeaveIfFailed                                        // if (mncs_failed) { status = mncs_exhausted ? 3 : 1; value 0; return; }
    | ReturnValue(e: Expr)                                 // *mncs_status = 0; *mncs_value = (int64_t)e; return;
    | Goto(pc: int)                                        // mncs_pc = pc; continue;
    | Call(callee: string, args: seq<Expr>)                // callee(args, mncs_status, mncs_value, mncs_depth + 1);
    | ReturnIfStatus                                       // if (*mncs_status != 0) { return; }
    | TakeValue(name: string, ty: CType)                   // name = (ty)*mncs_value;

  datatype State = State(vars: Locals, mem: Memory)

  /** How a statement list ends. */
  datatype Flow =
    | Next(st: State)
    | Jump(pc: int, st: State)
    | Exit(mem: Memory)
    | Wrong(mem: Memory)      // undefined behaviour
    | Spent(mem: Memory)      // the step count ran out

  function FlowMemory(f: Flow): Memory {
    match f
    case Next(st) => st.mem
    case Jump(_, st) => st.mem
    case Exit(m) => m
    case Wrong(m) => m
    case Spent(m) => m
  }

  function Left(m: Memory, code: int): Flow { Exit(m.(status := code, value := 0)) }

  /** Assignment converts to the variable's declared type (section 6.5.16.1). */
  function SetVar(st: State, x: string, n: int): Flow {
    if x in st.vars.types then
      Next(st.(vars := st.vars.(values := st.vars.values[x := ToType(st.vars.types[x], n)])))
    else Wrong(st.mem)
  }

  /** A statement other than `If` and `Call`. */
  function Step(s: Stmt, depth: nat, st: State): Flow
    requires !s.If? && !s.Call?
  {
    match s
    case Declare(t, x, e) =>
      var r := Eval(e, st.vars);
      if r.Undef? then Wrong(st.mem)
      else SetVar(st.(vars := st.vars.(types := st.vars.types[x := t])), x, r.v.n)
    case Assign(x, e) =>
      var r := Eval(e, st.vars);
      if r.Undef? then Wrong(st.mem) else SetVar(st, x, r.v.n)
    case Leave(code) => Left(st.mem, code)
    case Alloc(x, e) =>
      var r := Eval(e, st.vars);
      if r.Undef? then Wrong(st.mem)
      else
        var a := CellAlloc(st.mem, ToType(U64, r.v.n));
        SetVar(st.(mem := a.0), x, a.1)
    case Load(x, t, w, at) =>
      var r := Eval(at, st.vars);
      if r.Undef? then Wrong(st.mem)
      else
        var l := SlotLoad(st.mem, w, ToType(U64, r.v.n));
        SetVar(st.(mem := l.0), x, ToType(t, l.1))
    case Store(w, at, e) =>
      var a, r := Eval(at, st.vars), Eval(e, st.vars);
      if a.Undef? || r.Undef? then Wrong(st.mem)
      else Next(st.(mem := SlotStore(st.mem, w, ToType(U64, a.v.n), ToType(SlotType(w), r.v.n))))
    case CopySlot(w, to, from) =>
      var a, b := Eval(to, st.vars), Eval(from, st.vars);
      if a.Undef? || b.Undef? then Wrong(st.mem)
      else
        var l := SlotLoad(st.mem, w, ToType(U64, b.v.n));
        Next(st.(mem := SlotStore(l.0, w, ToType(U64, a.v.n), l.1)))
    case DepthGuard(limit) => if depth > limit then Left(st.mem, 3) else Next(st)
    case ResetAtTop => if depth == 0 then Next(st.(mem := st.mem.(failed := false, exhausted := false))) else Next(st)
    case LeaveIfFailed => if st.mem.failed then Left(st.mem, if st.mem.exhausted then 3 else 1) else Next(st)
    case ReturnValue(e) =>
      var r := Eval(e, st.vars);
      if r.Undef? then Wrong(st.mem)
      else Exit(st.mem.(status := 0, value := ToType(I64, r.v.n)))
    case Goto(pc) => Jump(pc, st)
    case ReturnIfStatus => if st.mem.status != 0 then Exit(st.mem) else Next(st)
    case TakeValue(x, t) => SetVar(st, x, ToType(t, st.mem.value))
  }

  /** Statement lists that make no calls; a call is outside this function's domain. */
  function Run(ss: seq<Stmt>, depth: nat, st: State): Flow
    decreases ss
  {
    if ss == [] then Next(st)
    else
      var f :=
        match ss[0]
        case Call(_, _) => Wrong(st.mem)
        case If(test, thn, els) =>
          var r := Eval(test, st.vars);
          if r.Undef? then Wrong(st.mem)
          else if r.v.n != 0 then Run(thn, depth, st) else Run(els, depth, st)
        case s => Step(s, depth, st);
      if f.Next? then Run(ss[1..], depth, f.st) else f
  }

  predicate CallFree(ss: seq<Stmt>)
    decreases ss
  {
    ss == [] || (
      && !ss[0].Call?
      && (ss[0].If? ==> CallFree(ss[0].thn) && CallFree(ss[0].els))
      && CallFree(ss[1..]))
  }

  // ---------- Functions and activations ----------

  datatype Decl = Decl(ty: CType, name: string)

  /** `prologue; int32_t mncs_pc = 0; for (;;) switch (mncs_pc) { cases; default: ... }`. */
  datatype Function = Function(params: seq<Decl>, decls: seq<Decl>, prologue: seq<Stmt>, cases: seq<seq<Stmt>>)

  type Program = map<string, Function>

  function DeclTypes(ds: seq<Decl>): map<string, CType> {
    if ds == [] then map[] else DeclTypes(ds[..|ds| - 1])[ds[|ds| - 1].name := ds[|ds| - 1].ty]
  }

  function BindParams(ds: seq<Decl>, args: seq<int>): map<string, int>
    requires |ds| == |args|
  {
    if ds == [] then map[]
    else
      var k := |ds| - 1;
      BindParams(ds[..k], args[..k])[ds[k].name := ToType(ds[k].ty, args[k])]
  }

  /** The statements a `switch` runs when it enters at `pc`: control falls from
      each case into the next, and `default` is the last label. */
  function SwitchTail(cases: seq<seq<Stmt>>, pc: int): seq<Stmt>
    decreases if 0 <= pc <= |cases| then |cases| - pc else 0
  {
    if 0 <= pc < |cases| then cases[pc] + SwitchTail(cases, pc + 1) else [Leave(1)]
  }

  function EvalArgs(args: seq<Expr>, vars: Locals): (r: (bool, seq<int>))
    ensures r.0 ==> |r.1| == |args|
  {
    if args == [] then (true, [])
    else
      var first, rest := Eval(args[0], vars), EvalArgs(args[1..], vars);
      if first.Undef? || !rest.0 then (false, []) else (true, [first.v.n] + rest.1)
  }

  /** One call of a compiled function. `fuel` counts loop iterations and bounds
      the activations nested inside each of them. */
  function Activate(p: Program, f: Function, args: seq<int>, depth: nat, m: Memory, fuel: nat): Flow
    decreases fuel, 1
  {
    if |args| != |f.params| then Wrong(m)
    else
      var vars := Locals(DeclTypes(f.params + f.decls), BindParams(f.params, args));
      var entered := Run(f.prologue, depth, State(vars, m));
      if entered.Next? then Loop(p, f, 0, depth, entered.st, fuel)
      else if entered.Jump? then Wrong(m)
      else entered
  }

  function Loop(p: Program, f: Function, pc: int, depth: nat, st: State, fuel: nat): Flow
    decreases fuel, 0
  {
    if fuel == 0 then Spent(st.mem)
    else
      var body := Exec(p, SwitchTail(f.cases, pc), depth, st, fuel - 1);
      match body
      case Jump(next, st') => Loop(p, f, next, depth, st', fuel - 1)
      case Next(st') => Loop(p, f, pc, depth, st', fuel - 1)
      case _ => body
  }

  function Invoke(p: Program, callee: string, args: seq<Expr>, depth: nat, st: State, fuel: nat): Flow
    decreases fuel, 2
  {
    var vals := EvalArgs(args, st.vars);
    if !vals.0 || callee !in p then Wrong(st.mem)
    else
      var r := Activate(p, p[callee], vals.1, (depth + 1) % TWO_64, st.mem, fuel);
      if r.Exit? then Next(st.(mem := r.mem)) else r
  }

  function Exec(p: Program, ss: seq<Stmt>, depth: nat, st: State, fuel: nat): Flow
    decreases fuel, 3, ss
  {
    if ss == [] then Next(st)
    else
      var f :=
        match ss[0]
        case Call(callee, args) => Invoke(p, callee, args, depth, st, fuel)
        case If(test, thn, els) =>
          var r := Eval(test, st.vars);
          if r.Undef? then Wrong(st.mem)
          else if r.v.n != 0 then Exec(p, thn, depth, st, fuel) else Exec(p, els, depth, st, fuel)
        case s => Step(s, depth, st);
      if f.Next? then Exec(p, ss[1..], depth, f.st, fuel) else f
  }
}
