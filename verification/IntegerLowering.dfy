/** What the emitted integer statements compute, and exactly when that is what
    the reference executor computes. */
module IntegerLowering {
  import opened Options
  import opened Words
  import opened Mncs
  import opened Emit
  import opened Naming
  import C = CLang
  import opened Execution

  // ---------- Cells ----------

  function CellModulus(b: IntWidth): (m: int)
    ensures m > 0 && m % 2 == 0
  {
    if b.B64? then TWO_64 else TWO_32
  }

  /** The signed C cell in which an integer of width `b` rides. */
  function CellOf(n: int, b: IntWidth): int { Wrap(n, CellModulus(b), true) }

  function CellType(b: IntWidth): C.CType { if b.B64? then C.I64 else C.I32 }

  lemma Divides(b: IntWidth, k: C.CType)
    requires !Signed128(k) && BitCount(b) <= C.WidthOf(k)
    ensures exists q :: q > 0 && C.ModulusOf(k) == q * IntModulus(b)
  {
    var q := C.ModulusOf(k) / IntModulus(b);
    assert q > 0 && C.ModulusOf(k) == q * IntModulus(b);
  }

  predicate Signed128(k: C.CType) { k.I128? || k.U128? }

  /** Conversion to any C type at least as wide keeps the residue. */
  lemma KeepsResidue(n: int, b: IntWidth, k: C.CType)
    requires !Signed128(k) && BitCount(b) <= C.WidthOf(k)
    ensures C.ToType(k, n) % IntModulus(b) == n % IntModulus(b)
  {
    Divides(b, k);
    var q :| q > 0 && C.ModulusOf(k) == q * IntModulus(b);
    WrapResidue(n, C.ModulusOf(k), C.Signed(k));
    ModOfMod(C.ToType(k, n), C.ModulusOf(k), IntModulus(b), q);
    ModOfMod(n, C.ModulusOf(k), IntModulus(b), q);
  }

  lemma CellResidue(n: int, b: IntWidth)
    ensures CellOf(n, b) % IntModulus(b) == n % IntModulus(b)
  {
    KeepsResidue(n, b, CellType(b));
  }

  /** The cell determines the integer. */
  lemma CellInjective(x: int, y: int, b: IntWidth, signed: bool)
    requires InRange(x, b, signed) && InRange(y, b, signed) && CellOf(x, b) == CellOf(y, b)
    ensures x == y
  {
    CellResidue(x, b);
    CellResidue(y, b);
    var m := IntModulus(b);
    if signed {
      WrapFixes(x, m, true);
      WrapFixes(y, m, true);
    } else {
      WrapFixes(x, m, false);
      WrapFixes(y, m, false);
    }
  }

  lemma CellOfSigned(n: int, b: IntWidth)
    requires InRange(n, b, true)
    ensures CellOf(n, b) == n
  {
    WrapFixes(n, CellModulus(b), true);
  }

  /** Reading the cell back as unsigned recovers an unsigned integer. */
  lemma CellOfUnsigned(n: int, b: IntWidth)
    requires InRange(n, b, false)
    ensures C.ToType(if b.B64? then C.U64 else C.U32, CellOf(n, b)) == n
    ensures b.B8? || b.B16? ==> CellOf(n, b) == n
  {
    WrapFixes(n, CellModulus(b), false);
    if b.B8? || b.B16? {
      WrapFixes(n, CellModulus(b), true);
    }
  }

  // ---------- Variables ----------

  ghost predicate Holds(vars: C.Locals, x: string, t: C.CType, n: int) {
    x in vars.types && vars.types[x] == t && x in vars.values && vars.values[x] == n
  }

  /** Value variables other than `d` are untouched. */
  ghost predicate SameElsewhere(a: C.Locals, b: C.Locals, d: string) {
    forall x | IsValueName(x) ::
      && (x in a.types <==> x in b.types)
      && (x in a.types ==> a.types[x] == b.types[x])
      && (x != d ==> (x in a.values <==> x in b.values))
      && (x != d && x in a.values ==> a.values[x] == b.values[x])
  }

  /** The flow assigns `n` to `d` and changes no other value variable. */
  ghost predicate Assigns(st: C.State, f: C.Flow, d: string, n: int) {
    && f.Next?
    && f.st.mem == st.mem
    && SameElsewhere(st.vars, f.st.vars, d)
    && d in f.st.vars.values
    && f.st.vars.values[d] == n
  }

  ghost predicate Trapped(st: C.State, f: C.Flow) { f == C.Left(st.mem, 1) }

  /** What a statement list leaves: a cell in `d`, or a trap. */
  ghost predicate Leaves(st: C.State, f: C.Flow, d: string, outcome: Option<int>) {
    match outcome
    case Some(n) => Assigns(st, f, d, n)
    case None => Trapped(st, f)
  }

  // ---------- Single statements ----------

  lemma RunOne(s: C.Stmt, depth: nat, st: C.State)
    ensures !s.If? && !s.Call? ==> C.Run([s], depth, st) == C.Step(s, depth, st)
    ensures s.If? && C.Eval(s.test, st.vars).Ok? ==>
      C.Run([s], depth, st) == if C.Eval(s.test, st.vars).v.n != 0 then C.Run(s.thn, depth, st) else C.Run(s.els, depth, st)
  {
    assert [s][1..] == [];
  }

  lemma RunNone(depth: nat, st: C.State)
    ensures C.Run([], depth, st) == C.Next(st)
  {
  }

  lemma RunTrapIf(test: C.Expr, depth: nat, st: C.State)
    requires C.Eval(test, st.vars).Ok?
    ensures C.Run([TrapIf(test)], depth, st) == if C.Eval(test, st.vars).v.n != 0 then C.Left(st.mem, 1) else C.Next(st)
  {
    RunOne(TrapIf(test), depth, st);
    RunOne(C.Leave(1), depth, st);
  }

  /** Assigning a cell of the variable's own type. */
  lemma RunAssign(d: string, e: C.Expr, n: int, depth: nat, st: C.State)
    requires IsValueName(d) && d in st.vars.types
    requires C.Eval(e, st.vars).Ok? && C.ToType(st.vars.types[d], C.Eval(e, st.vars).v.n) == n
    ensures Assigns(st, C.Run([C.Assign(d, e)], depth, st), d, n)
  {
    RunOne(C.Assign(d, e), depth, st);
  }

  lemma Idempotent(t: C.CType, n: int)
    ensures C.ToType(t, C.ToType(t, n)) == C.ToType(t, n)
  {
    C.ToTypeFixes(t, C.ToType(t, n));
  }

  // ---------- Wrapping arithmetic and bitwise operators ----------

  function Raw(op: IntOp, l: int, r: int): int {
    match op
    case OpSub => l - r
    case OpMul => l * r
    case _ => l + r
  }

  lemma RawResidue(op: IntOp, a: int, b: int, m: int)
    requires m > 0
    ensures Raw(op, a % m, b % m) % m == Raw(op, a, b) % m
  {
    ModAdd(a, b, m);
    ModSub(a, b, m);
    ModMul(a, b, m);
  }

  /** Operand variables of an integer instruction, holding the cells of `l` and `r`. */
  ghost predicate Operands(vars: C.Locals, x: string, y: string, b: IntWidth, l: int, r: int) {
    Holds(vars, x, CellType(b), CellOf(l, b)) && Holds(vars, y, CellType(b), CellOf(r, b))
  }

  lemma EvalAsU64(vars: C.Locals, x: string)
    requires x in vars.types && x in vars.values
    ensures C.Eval(AsU64(x), vars) == C.Ok(C.CValue(C.U64, vars.values[x] % TWO_64))
  {
  }

  lemma MaskBits(b: IntWidth)
    ensures Pow2(BitCount(b)) == IntModulus(b) && BitCount(b) <= 64
  {
    Pow2Values();
  }

  /** Evaluation of the common shapes, one operator at a time. */
  lemma EvalBin(vars: C.Locals, op: C.BinaryOp, e: C.Expr, f: C.Expr, x: C.CValue, y: C.CValue)
    requires C.Eval(e, vars) == C.Ok(x) && C.Eval(f, vars) == C.Ok(y)
    requires !op.LogicalAnd? && !op.LogicalOr?
    ensures C.Eval(C.Bin(op, e, f), vars) == C.Binary(op, x, y)
  {
  }

  lemma EvalCast(vars: C.Locals, t: C.CType, e: C.Expr, x: C.CValue)
    requires C.Eval(e, vars) == C.Ok(x)
    ensures C.Eval(C.Cast(t, e), vars) == C.Ok(C.CValue(t, C.ToType(t, x.n)))
  {
  }

  lemma EvalVar(vars: C.Locals, x: string, t: C.CType, n: int)
    requires Holds(vars, x, t, n)
    ensures C.Eval(C.Var(x), vars) == C.Ok(C.CValue(t, n))
  {
  }

  lemma EvalLit(vars: C.Locals, n: nat, suffix: C.Suffix)
    ensures C.Eval(C.Lit(n, suffix), vars) == C.Ok(C.CValue(C.LiteralType(n, suffix), n))
  {
  }

  lemma EvalBoth(vars: C.Locals, e: C.Expr, f: C.Expr, a: bool, b: bool)
    requires C.Eval(e, vars) == C.Truth(a) && C.Eval(f, vars) == C.Truth(b)
    ensures C.Eval(C.Bin(C.LogicalAnd, e, f), vars) == C.Truth(a && b)
  {
  }

  lemma ArithU64(op: IntOp, p: int, q: int)
    requires 0 <= p < TWO_64 && 0 <= q < TWO_64 && (op.OpAdd? || op.OpSub? || op.OpMul?)
    ensures C.Binary(ArithmeticOp(op), C.CValue(C.U64, p), C.CValue(C.U64, q)) == C.Ok(C.CValue(C.U64, Raw(op, p, q) % TWO_64))
  {
    C.ToTypeFixes(C.U64, p);
    C.ToTypeFixes(C.U64, q);
  }

  lemma BitsU64(op: C.BinaryOp, p: int, q: int)
    requires 0 <= p < TWO_64 && 0 <= q < TWO_64 && (op.And? || op.Or? || op.Xor?)
    ensures C.Binary(op, C.CValue(C.U64, p), C.CValue(C.U64, q))
         == C.Ok(C.CValue(C.U64, Bitwise(if op.And? then BitAnd else if op.Or? then BitOr else BitXor, p, q, 64)))
    ensures 0 <= Bitwise(if op.And? then BitAnd else if op.Or? then BitOr else BitXor, p, q, 64) < TWO_64
  {
    C.ToTypeFixes(C.U64, p);
    C.ToTypeFixes(C.U64, q);
    Pow2Values();
    C.ToTypeFixes(C.U64, Bitwise(if op.And? then BitAnd else if op.Or? then BitOr else BitXor, p, q, 64));
  }

  lemma MaskU64(w: int, b: IntWidth)
    requires 0 <= w < TWO_64
    ensures C.Binary(C.And, C.CValue(C.U64, w), C.CValue(C.U64, IntModulus(b) - 1)) == C.Ok(C.CValue(C.U64, w % IntModulus(b)))
  {
    MaskBits(b);
    BitsU64(C.And, w, IntModulus(b) - 1);
    AndMask(w, 64, BitCount(b));
  }

  lemma EvalWrapping(vars: C.Locals, op: IntOp, b: IntWidth, x: string, y: string, l: int, r: int)
    requires Operands(vars, x, y, b, l, r)
    requires op.OpAdd? || op.OpSub? || op.OpMul?
    ensures C.Eval(WrappingExpr(op, b, CellType(b), x, y), vars)
         == C.Ok(C.CValue(CellType(b), CellOf(Raw(op, l, r) % IntModulus(b), b)))
  {
    var p, q := CellOf(l, b) % TWO_64, CellOf(r, b) % TWO_64;
    var w := Raw(op, p, q) % TWO_64;
    EvalAsU64(vars, x);
    EvalAsU64(vars, y);
    ArithU64(op, p, q);
    var sum := C.Bin(ArithmeticOp(op), AsU64(x), AsU64(y));
    EvalBin(vars, ArithmeticOp(op), AsU64(x), AsU64(y), C.CValue(C.U64, p), C.CValue(C.U64, q));
    EvalCast(vars, C.U64, sum, C.CValue(C.U64, w));
    C.ToTypeFixes(C.U64, w);
    MaskU64(w, b);
    EvalBin(vars, C.And, C.Cast(C.U64, sum), MaskLiteral(b), C.CValue(C.U64, w), C.CValue(C.U64, IntModulus(b) - 1));
    EvalCast(vars, CellType(b), C.Bin(C.And, C.Cast(C.U64, sum), MaskLiteral(b)), C.CValue(C.U64, w % IntModulus(b)));
    WrappingResidue(op, b, l, r);
  }

  lemma WrappingResidue(op: IntOp, b: IntWidth, l: int, r: int)
    ensures (Raw(op, CellOf(l, b) % TWO_64, CellOf(r, b) % TWO_64) % TWO_64) % IntModulus(b) == Raw(op, l, r) % IntModulus(b)
  {
    var m := IntModulus(b);
    var p, q := CellOf(l, b) % TWO_64, CellOf(r, b) % TWO_64;
    KeepsResidue(Raw(op, p, q), b, C.U64);
    RawResidue(op, p, q, m);
    RawResidue(op, l, r, m);
    KeepsResidue(CellOf(l, b), b, C.U64);
    KeepsResidue(CellOf(r, b), b, C.U64);
    CellResidue(l, b);
    CellResidue(r, b);
  }

  lemma EvalBitwise(vars: C.Locals, op: IntOp, b: IntWidth, signed: bool, x: string, y: string, l: int, r: int)
    requires Operands(vars, x, y, b, l, r) && InRange(l, b, signed) && InRange(r, b, signed) && IsBitwise(op)
    ensures C.Eval(C.Cast(CellType(b), C.Bin(ArithmeticOp(op), AsU64(x), AsU64(y))), vars)
         == C.Ok(C.CValue(CellType(b), CellOf(EvaluateBitwise(op, b, signed, l, r), b)))
  {
    var p, q := CellOf(l, b) % TWO_64, CellOf(r, b) % TWO_64;
    var w := Bitwise(BitOf(op), p, q, 64);
    EvalAsU64(vars, x);
    EvalAsU64(vars, y);
    BitsU64(ArithmeticOp(op), p, q);
    EvalBin(vars, ArithmeticOp(op), AsU64(x), AsU64(y), C.CValue(C.U64, p), C.CValue(C.U64, q));
    EvalCast(vars, CellType(b), C.Bin(ArithmeticOp(op), AsU64(x), AsU64(y)), C.CValue(C.U64, w));
    BitwiseCell(op, b, signed, l, r);
  }

  /** The 64-bit pattern computed on sign-extended cells, cut back to the cell,
      is the reference result. */
  lemma BitwiseCell(op: IntOp, b: IntWidth, signed: bool, l: int, r: int)
    requires InRange(l, b, signed) && InRange(r, b, signed) && IsBitwise(op)
    ensures CellOf(Bitwise(BitOf(op), CellOf(l, b) % TWO_64, CellOf(r, b) % TWO_64, 64), b)
         == CellOf(EvaluateBitwise(op, b, signed, l, r), b)
  {
    hide Bitwise, Wrap;
    var o := BitOf(op);
    CellWord(o, b, CellOf(l, b), CellOf(r, b));
    if b.B32? || b.B64? {
      CellResidue(l, b);
      CellResidue(r, b);
      SameCell(Bitwise(o, l % IntModulus(b), r % IntModulus(b), BitCount(b)), b, signed);
    } else {
      NarrowExtension(o, b, signed, l, r);
    }
  }

  lemma SameCell(v: int, b: IntWidth, signed: bool)
    requires b.B32? || b.B64?
    ensures CellOf(Adjusted(v, IntModulus(b), signed), b) == CellOf(v, b)
  {
    ModShift(v, IntModulus(b), -1);
  }

  function CellBits(b: IntWidth): nat { if b.B64? then 64 else 32 }

  /** Only the bits inside the cell matter. */
  lemma CellWord(o: BitOperator, b: IntWidth, x: int, y: int)
    ensures CellOf(Bitwise(o, x % TWO_64, y % TWO_64, 64), b)
         == CellOf(Bitwise(o, x % CellModulus(b), y % CellModulus(b), CellBits(b)), b)
  {
    Pow2Values();
    BitwiseLow(o, x % TWO_64, y % TWO_64, 64, CellBits(b));
    KeepsCellResidue(x, b);
    KeepsCellResidue(y, b);
    WrapFixes(Bitwise(o, x % CellModulus(b), y % CellModulus(b), CellBits(b)), CellModulus(b), false);
  }

  lemma KeepsCellResidue(n: int, b: IntWidth)
    ensures (n % TWO_64) % CellModulus(b) == n % CellModulus(b)
  {
    ModOfMod(n, TWO_64, CellModulus(b), if b.B64? then 1 else TWO_32);
  }

  function SignBit(n: int): int { if n < 0 then 1 else 0 }

  /** Sign- or zero-extended 8- and 16-bit operands give a sign- or zero-extended result. */
  lemma NarrowExtension(o: BitOperator, b: IntWidth, signed: bool, l: int, r: int)
    requires (b.B8? || b.B16?) && InRange(l, b, signed) && InRange(r, b, signed)
    ensures var m := IntModulus(b);
            var v := Bitwise(o, l % m, r % m, BitCount(b));
            && CellOf(l, b) == l && CellOf(r, b) == r
            && CellOf(Bitwise(o, l % TWO_32, r % TWO_32, 32), b) == Adjusted(v, m, signed)
            && CellOf(Adjusted(v, m, signed), b) == Adjusted(v, m, signed)
  {
    hide Wrap, Bitwise;
    var m := IntModulus(b);
    var v := Bitwise(o, l % m, r % m, BitCount(b));
    WrapFixes(l, TWO_32, true);
    WrapFixes(r, TWO_32, true);
    ExtendedWord(o, b, l, r);
    TopBit(o, b, signed, l, r);
    SignExtendedCell(b, v, OneBit(o, SignBit(l), SignBit(r)), signed);
  }

  lemma SignExtendedCell(b: IntWidth, v: int, s: int, signed: bool)
    requires (b.B8? || b.B16?) && 0 <= v < IntModulus(b) && 0 <= s <= 1
    requires if signed then v >= IntModulus(b) / 2 <==> s == 1 else s == 0
    ensures CellOf(v + s * (TWO_32 - IntModulus(b)), b) == Adjusted(v, IntModulus(b), signed)
    ensures CellOf(Adjusted(v, IntModulus(b), signed), b) == Adjusted(v, IntModulus(b), signed)
  {
    var result := Adjusted(v, IntModulus(b), signed);
    WrapFixes(result, TWO_32, true);
    if s == 1 {
      ModShift(result, TWO_32, 1);
    }
  }

  /** The 32-bit word: the narrow result below, copies of the combined sign above. */
  lemma ExtendedWord(o: BitOperator, b: IntWidth, l: int, r: int)
    requires (b.B8? || b.B16?) && -(IntModulus(b) / 2) <= l < IntModulus(b) && -(IntModulus(b) / 2) <= r < IntModulus(b)
    ensures Bitwise(o, l % TWO_32, r % TWO_32, 32)
         == Bitwise(o, l % IntModulus(b), r % IntModulus(b), BitCount(b))
          + OneBit(o, SignBit(l), SignBit(r)) * (TWO_32 - IntModulus(b))
  {
    hide Bitwise;
    var k := BitCount(b);
    MaskBits(b);
    Extended(l, b);
    Extended(r, b);
    BitwiseSplit(o, l % TWO_32, r % TWO_32, k, 32 - k);
    BitwiseUniform(o, SignBit(l), SignBit(r), 32 - k);
    Pow2Sum(k, 32 - k);
    Pow2Values();
    HighField(OneBit(o, SignBit(l), SignBit(r)), Pow2(32 - k), IntModulus(b));
  }

  lemma HighField(s: int, t: int, m: int)
    requires 0 <= s <= 1
    ensures (if s == 1 then t - 1 else 0) * m == s * (m * t - m)
  {
    if s == 1 {
      Distribute(t, -1, m);
    }
  }

  lemma Extended(n: int, b: IntWidth)
    requires (b.B8? || b.B16?) && -(IntModulus(b) / 2) <= n < IntModulus(b)
    ensures var m := IntModulus(b);
            && (n % TWO_32) % m == n % m
            && (n % TWO_32) / m == Ones(SignBit(n), 32 - BitCount(b))
  {
    Pow2Values();
    ModOfMod(n, TWO_32, IntModulus(b), TWO_32 / IntModulus(b));
    assert Pow2(24) == 0x100_0000;
  }

  /** The result's top bit is the operator applied to the operands' signs. */
  lemma TopBit(o: BitOperator, b: IntWidth, signed: bool, l: int, r: int)
    requires (b.B8? || b.B16?) && InRange(l, b, signed) && InRange(r, b, signed)
    ensures var m := IntModulus(b);
            var v := Bitwise(o, l % m, r % m, BitCount(b));
            && v < m
            && (signed ==> (v >= m / 2 <==> OneBit(o, SignBit(l), SignBit(r)) == 1))
            && (!signed ==> OneBit(o, SignBit(l), SignBit(r)) == 0)
  {
    MaskBits(b);
    if signed {
      SignQuotient(l, b);
      SignQuotient(r, b);
      var h, k := Pow2(BitCount(b) - 1), BitCount(b) - 1;
      BitwiseSplit(o, l % IntModulus(b), r % IntModulus(b), k, 1);
      OneBitWord(o, SignBit(l), SignBit(r));
      CarryBit(Bitwise(o, l % IntModulus(b) % h, r % IntModulus(b) % h, k), OneBit(o, SignBit(l), SignBit(r)), h);
    }
  }

  lemma CarryBit(low: int, s: int, h: int)
    requires 0 <= low < h && 0 <= s <= 1
    ensures low + s * h >= h <==> s == 1
  {
  }

  lemma SignQuotient(n: int, b: IntWidth)
    requires (b.B8? || b.B16?) && InRange(n, b, true)
    ensures Quotient(n % IntModulus(b), BitCount(b) - 1) == SignBit(n)
    ensures Pow2(BitCount(b) - 1) == IntModulus(b) / 2
  {
    Pow2Values();
  }

  lemma OneBitWord(o: BitOperator, a: int, c: int)
    requires 0 <= a <= 1 && 0 <= c <= 1
    ensures Bitwise(o, a, c, 1) == OneBit(o, a, c)
  {
    BitwiseStep(o, a, c, 1);
    hide Bitwise;
    assert a % 2 == a && c % 2 == c;
  }

  // ---------- Shifts ----------

  lemma EvalShiftCount(vars: C.Locals, b: IntWidth, y: string, r: int)
    requires Holds(vars, y, CellType(b), CellOf(r, b))
    ensures C.Eval(ShiftCount(b, y), vars) == C.Ok(C.CValue(C.U32, r % BitCount(b)))
  {
    var cell := CellOf(r, b);
    var low := cell % TWO_32;
    EvalCast(vars, C.U32, C.Var(y), C.CValue(CellType(b), cell));
    C.ToTypeFixes(C.U32, low);
    C.ToTypeFixes(C.U32, BitCount(b));
    TruncRemBound(low, BitCount(b));
    TruncDivBound(low, BitCount(b));
    C.ToTypeFixes(C.U32, TruncRem(low, BitCount(b)));
    EvalBin(vars, C.Rem, C.Cast(C.U32, C.Var(y)), NumU(BitCount(b)), C.CValue(C.U32, low), C.CValue(C.U32, BitCount(b)));
    CountResidue(b, r);
  }

  /** The truncated 32-bit count is the count modulo the width. */
  lemma CountResidue(b: IntWidth, r: int)
    ensures (CellOf(r, b) % TWO_32) % BitCount(b) == r % BitCount(b)
  {
    var w := BitCount(b);
    WrapResidue(r, CellModulus(b), true);
    ModOfMod(CellOf(r, b), TWO_32, w, TWO_32 / w);
    ModOfMod(CellOf(r, b), CellModulus(b), w, CellModulus(b) / w);
    ModOfMod(r, CellModulus(b), w, CellModulus(b) / w);
  }

  /** The state after a declaration of a temporary. */
  function WithTemp(st: C.State, t: C.CType, x: string, n: int): C.State {
    st.(vars := C.Locals(st.vars.types[x := t], st.vars.values[x := n]))
  }

  lemma RunDeclare(t: C.CType, x: string, e: C.Expr, n: int, depth: nat, st: C.State)
    requires C.Eval(e, st.vars).Ok? && C.ToType(t, C.Eval(e, st.vars).v.n) == n
    ensures C.Run([C.Declare(t, x, e)], depth, st) == C.Next(WithTemp(st, t, x, n))
  {
    RunOne(C.Declare(t, x, e), depth, st);
    assert st.vars.types[x := t][x] == t;
  }

  lemma RunReassign(x: string, e: C.Expr, n: int, depth: nat, st: C.State)
    requires x in st.vars.types && C.Eval(e, st.vars).Ok? && C.ToType(st.vars.types[x], C.Eval(e, st.vars).v.n) == n
    ensures C.Run([C.Assign(x, e)], depth, st) == C.Next(st.(vars := st.vars.(values := st.vars.values[x := n])))
  {
    RunOne(C.Assign(x, e), depth, st);
  }

  /** Work on temporaries before the final assignment is invisible. */
  lemma AfterTemps(st: C.State, later: C.State, f: C.Flow, d: string, n: int)
    requires later.mem == st.mem && SameElsewhere(st.vars, later.vars, "")
    requires Assigns(later, f, d, n) && IsValueName(d)
    ensures Assigns(st, f, d, n)
  {
  }

  lemma TempsOnly(st: C.State, t: C.CType, x: string, n: int)
    requires !IsValueName(x)
    ensures SameElsewhere(st.vars, WithTemp(st, t, x, n).vars, "")
    ensures Holds(WithTemp(st, t, x, n).vars, x, t, n)
  {
  }

  lemma StillHolds(a: C.Locals, b: C.Locals, x: string, t: C.CType, n: int)
    requires SameElsewhere(a, b, "") && IsValueName(x) && Holds(a, x, t, n)
    ensures Holds(b, x, t, n)
  {
  }

  /** What `shl` leaves, for every count. */
  function ShiftedLeft(b: IntWidth, l: int, r: int): int { ((l % IntModulus(b)) * Pow2(r % BitCount(b))) % IntModulus(b) }

  lemma EvalShiftLeft(vars: C.Locals, b: IntWidth, y: string, p: int, r: int)
    requires Holds(vars, y, CellType(b), CellOf(r, b)) && Holds(vars, "mncs_w", C.U64, p) && 0 <= p < TWO_64
    ensures C.Eval(ShiftedWord(b, y), vars)
         == C.Ok(C.CValue(C.U64, ((p * Pow2(r % BitCount(b))) % TWO_64) % IntModulus(b)))
  {
    var c := r % BitCount(b);
    var word := (p * Pow2(c)) % TWO_64;
    var shifted := C.Bin(C.Shl, C.Var("mncs_w"), ShiftCount(b, y));
    EvalShiftCount(vars, b, y, r);
    EvalBin(vars, C.Shl, C.Var("mncs_w"), ShiftCount(b, y), C.CValue(C.U64, p), C.CValue(C.U32, c));
    C.ToTypeFixes(C.U64, p);
    assert C.Eval(shifted, vars) == C.Ok(C.CValue(C.U64, word));
    if b.B64? {
      WrapFixes(word, TWO_64, false);
    } else {
      MaskU64(word, b);
      EvalBin(vars, C.And, shifted, MaskLiteral(b), C.CValue(C.U64, word), C.CValue(C.U64, IntModulus(b) - 1));
    }
  }

  lemma RunThree(a: C.Stmt, b: C.Stmt, c: C.Stmt, depth: nat, st: C.State, st1: C.State, st2: C.State)
    requires C.Run([a], depth, st) == C.Next(st1) && C.Run([b], depth, st1) == C.Next(st2)
    ensures C.Run([a, b, c], depth, st) == C.Run([c], depth, st2)
  {
    assert [a, b, c] == [a] + ([b] + [c]);
    RunCons(a, [b] + [c], depth, st);
    RunCons(b, [c], depth, st1);
  }

  lemma RunShiftLeft(d: string, b: IntWidth, x: string, y: string, l: int, r: int, depth: nat, st: C.State)
    requires Operands(st.vars, x, y, b, l, r) && IsValueName(x) && IsValueName(y) && IsValueName(d)
    requires d in st.vars.types && st.vars.types[d] == CellType(b)
    ensures Assigns(st, C.Run(ShiftLeftCode(d, b, CellType(b), x, y), depth, st), d, CellOf(ShiftedLeft(b, l, r), b))
  {
    hide Wrap, Pow2;
    var code := ShiftLeftCode(d, b, CellType(b), x, y);
    var p, result := CellOf(l, b) % TWO_64, ShiftedLeft(b, l, r);
    var st1, st2 := WithTemp(st, C.U64, "mncs_w", p), WithTemp(st, C.U64, "mncs_w", result);
    TempsOnly(st, C.U64, "mncs_w", p);
    TempsOnly(st, C.U64, "mncs_w", result);
    C.ToTypeFixes(C.U64, p);
    C.ToTypeFixes(C.U64, result);
    assert C.Run([code[0]], depth, st) == C.Next(st1) by {
      EvalAsU64(st.vars, x);
      EvalCast(st.vars, C.U64, AsU64(x), C.CValue(C.U64, p));
      RunDeclare(C.U64, "mncs_w", C.Cast(C.U64, AsU64(x)), p, depth, st);
    }
    assert C.Run([code[1]], depth, st1) == C.Next(st2) by {
      StillHolds(st.vars, st1.vars, y, CellType(b), CellOf(r, b));
      ShiftResidue(b, l, p, Pow2(r % BitCount(b)));
      EvalShiftLeft(st1.vars, b, y, p, r);
      RunReassign("mncs_w", code[1].e, result, depth, st1);
      assert st1.vars.values["mncs_w" := result] == st2.vars.values;
    }
    RunThree(code[0], code[1], code[2], depth, st, st1, st2);
    FinalCast(d, "mncs_w", C.U64, b, result, depth, st, st2);
  }

  /** `d = (cell type)temporary;` */
  lemma FinalCast(d: string, x: string, t: C.CType, b: IntWidth, n: int, depth: nat, st: C.State, later: C.State)
    requires later.mem == st.mem && SameElsewhere(st.vars, later.vars, "") && Holds(later.vars, x, t, n)
    requires IsValueName(d) && d in st.vars.types && st.vars.types[d] == CellType(b)
    ensures Assigns(st, C.Run([C.Assign(d, C.Cast(CellType(b), C.Var(x)))], depth, later), d, CellOf(n, b))
  {
    hide Wrap;
    EvalCast(later.vars, CellType(b), C.Var(x), C.CValue(t, n));
    Idempotent(CellType(b), n);
    RunAssign(d, C.Cast(CellType(b), C.Var(x)), CellOf(n, b), depth, later);
    AfterTemps(st, later, C.Run([C.Assign(d, C.Cast(CellType(b), C.Var(x)))], depth, later), d, CellOf(n, b));
  }

  lemma ShiftResidue(b: IntWidth, l: int, p: int, f: int)
    requires p == CellOf(l, b) % TWO_64
    ensures ((p * f) % TWO_64) % IntModulus(b) == ((l % IntModulus(b)) * f) % IntModulus(b)
  {
    KeepsResidue(p * f, b, C.U64);
    KeepsResidue(CellOf(l, b), b, C.U64);
    CellResidue(l, b);
    FactorResidue(p, l, f, IntModulus(b));
  }

  lemma FactorResidue(p: int, l: int, f: int, m: int)
    requires m > 0 && p % m == l % m
    ensures (p * f) % m == ((l % m) * f) % m
  {
    ModMul(p, f, m);
    ModMul(l % m, f, m);
    ModUnique(l % m, m, 0, l % m);
  }

  /** Shifting the complement and complementing again is floor division. */
  lemma DoubleComplement(l: int, d: int)
    requires d > 0
    ensures -((-l - 1) / d) - 1 == l / d
  {
    DivMod(l, d);
    NegatedProducts(l / d, d);
    Distribute(-(l / d), -1, d);
    ModUnique(-l - 1, d, -(l / d) - 1, d - 1 - l % d);
  }

  lemma FloorBound(l: int, d: int)
    requires d > 0
    ensures l >= 0 ==> 0 <= l / d <= l
    ensures l < 0 ==> l <= l / d < 0
  {
    if l >= 0 {
      QuotientBound(l, d);
    } else {
      DoubleComplement(l, d);
      QuotientBound(-l - 1, d);
    }
  }

  lemma EvalBitNotI64(vars: C.Locals, e: C.Expr, n: int)
    requires C.Eval(e, vars) == C.Ok(C.CValue(C.I64, n)) && -TWO_63 <= n < TWO_63
    ensures C.Eval(C.BitNot(e), vars) == C.Ok(C.CValue(C.I64, -n - 1))
  {
    hide Wrap;
    C.ToTypeFixes(C.I64, n);
    C.ToTypeFixes(C.I64, -n - 1);
  }

  lemma EvalShiftRightSigned(vars: C.Locals, b: IntWidth, x: string, y: string, l: int, r: int)
    requires Operands(vars, x, y, b, l, r) && InRange(l, b, true)
    ensures C.Eval(ShiftRightExpr(b, true, x, y), vars) == C.Ok(C.CValue(C.I64, l / Pow2(r % BitCount(b))))
  {
    hide Wrap, Pow2, C.Eval, ShiftCount;
    var c := r % BitCount(b);
    CellOfSigned(l, b);
    EvalVar(vars, x, CellType(b), l);
    EvalCast(vars, C.I64, C.Var(x), C.CValue(CellType(b), l));
    C.ToTypeFixes(C.I64, l);
    var flipped := C.BitNot(C.Cast(C.I64, C.Var(x)));
    EvalBitNotI64(vars, C.Cast(C.I64, C.Var(x)), l);
    EvalShiftCount(vars, b, y, r);
    C.ToTypeFixes(C.I64, -l - 1);
    EvalBin(vars, C.Shr, flipped, ShiftCount(b, y), C.CValue(C.I64, -l - 1), C.CValue(C.U32, c));
    FloorBound(-l - 1, Pow2(c));
    DoubleComplement(l, Pow2(c));
    EvalComplement(vars, C.Bin(C.Shr, flipped, ShiftCount(b, y)), (-l - 1) / Pow2(c));
  }

  lemma EvalComplement(vars: C.Locals, e: C.Expr, s: int)
    requires C.Eval(e, vars) == C.Ok(C.CValue(C.I64, s)) && -TWO_63 <= s < TWO_63
    ensures C.Eval(C.Cast(C.I64, C.BitNot(C.Cast(C.U64, e))), vars) == C.Ok(C.CValue(C.I64, -s - 1))
  {
    var u := s % TWO_64;
    EvalCast(vars, C.U64, e, C.CValue(C.I64, s));
    C.ToTypeFixes(C.U64, u);
    ModUnique(-u - 1, TWO_64, -1, TWO_64 - 1 - u);
    assert C.Eval(C.BitNot(C.Cast(C.U64, e)), vars) == C.Ok(C.CValue(C.U64, TWO_64 - 1 - u));
    EvalCast(vars, C.I64, C.BitNot(C.Cast(C.U64, e)), C.CValue(C.U64, TWO_64 - 1 - u));
    ComplementCast(s);
  }

  lemma ComplementCast(s: int)
    requires -TWO_63 <= s < TWO_63
    ensures C.ToType(C.I64, TWO_64 - 1 - s % TWO_64) == -s - 1
  {
    C.ToTypeFixes(C.I64, -s - 1);
    DivMod(s, TWO_64);
    ModShift(-s - 1, TWO_64, s / TWO_64 + 1);
  }

  lemma EvalShiftRightUnsigned(vars: C.Locals, b: IntWidth, x: string, y: string, l: int, r: int)
    requires Operands(vars, x, y, b, l, r) && InRange(l, b, false)
    ensures C.Eval(ShiftRightExpr(b, false, x, y), vars) == C.Ok(C.CValue(C.U64, l / Pow2(r % BitCount(b))))
  {
    var p, m, c := CellOf(l, b) % TWO_64, IntModulus(b), r % BitCount(b);
    EvalAsU64(vars, x);
    MaskU64(p, b);
    EvalBin(vars, C.And, AsU64(x), MaskLiteral(b), C.CValue(C.U64, p), C.CValue(C.U64, m - 1));
    KeepsResidue(CellOf(l, b), b, C.U64);
    CellResidue(l, b);
    WrapFixes(l, m, false);
    EvalShiftCount(vars, b, y, r);
    C.ToTypeFixes(C.U64, l);
    EvalBin(vars, C.Shr, C.Bin(C.And, AsU64(x), MaskLiteral(b)), ShiftCount(b, y), C.CValue(C.U64, l), C.CValue(C.U32, c));
  }

  // ---------- Division and remainder ----------

  lemma CellZero(n: int, b: IntWidth, signed: bool)
    requires InRange(n, b, signed)
    ensures CellOf(n, b) == 0 <==> n == 0
  {
    WrapFixes(0, CellModulus(b), true);
    if CellOf(n, b) == 0 {
      CellInjective(n, 0, b, signed);
    }
  }

  function UnsignedType(b: IntWidth): C.CType { if b.B64? then C.U64 else C.U32 }

  /** `x == e` for a cell variable and an expression of an integer type no wider than the cell. */
  lemma EvalCellEquals(vars: C.Locals, b: IntWidth, x: string, e: C.Expr, cell: int, v: C.CValue)
    requires Holds(vars, x, CellType(b), cell) && C.Eval(e, vars) == C.Ok(v)
    requires C.Fits(CellType(b), cell) && C.Fits(CellType(b), v.n) && (v.ty.I32? || v.ty == CellType(b))
    ensures C.Eval(C.Bin(C.Eq, C.Var(x), e), vars) == C.Truth(cell == v.n)
  {
    hide Wrap;
    C.ToTypeFixes(CellType(b), cell);
    C.ToTypeFixes(CellType(b), v.n);
    EvalBin(vars, C.Eq, C.Var(x), e, C.CValue(CellType(b), cell), v);
  }

  lemma EvalMinMacro(vars: C.Locals, b: IntWidth)
    ensures C.Eval(MinMacro(b), vars) == C.Ok(C.CValue(CellType(b), Minimum(b, true)))
  {
    hide Wrap, C.Eval;
    var h := IntModulus(b) / 2;
    EvalLit(vars, h - 1, C.NoSuffix);
    EvalLit(vars, 1, C.NoSuffix);
    EvalNeg(vars, Num(h - 1), CellType(b), h - 1);
    C.ToTypeFixes(CellType(b), -(h - 1));
    C.ToTypeFixes(CellType(b), 1);
    EvalBin(vars, C.Sub, C.Neg(Num(h - 1)), Num(1), C.CValue(CellType(b), -(h - 1)), C.CValue(C.I32, 1));
  }

  lemma EvalNeg(vars: C.Locals, e: C.Expr, t: C.CType, n: int)
    requires C.Eval(e, vars) == C.Ok(C.CValue(t, n)) && (t.I32? || t.I64?) && C.Fits(t, n) && C.Fits(t, -n)
    ensures C.Eval(C.Neg(e), vars) == C.Ok(C.CValue(t, -n))
  {
    C.ToTypeFixes(t, n);
  }

  function EdgeTest(b: IntWidth, x: string, y: string): C.Expr {
    C.Bin(C.LogicalAnd, C.Bin(C.Eq, C.Var(x), MinMacro(b)), C.Bin(C.Eq, C.Var(y), C.Neg(Num(1))))
  }

  lemma EvalEdge(vars: C.Locals, b: IntWidth, x: string, y: string, l: int, r: int)
    requires Operands(vars, x, y, b, l, r) && InRange(l, b, true) && InRange(r, b, true)
    ensures C.Eval(EdgeTest(b, x, y), vars) == C.Truth(l == Minimum(b, true) && r == -1)
  {
    hide Wrap, C.Eval, MinMacro;
    CellOfSigned(l, b);
    CellOfSigned(r, b);
    EvalMinMacro(vars, b);
    EvalCellEquals(vars, b, x, MinMacro(b), l, C.CValue(CellType(b), Minimum(b, true)));
    EvalLit(vars, 1, C.NoSuffix);
    EvalNeg(vars, Num(1), C.I32, 1);
    EvalCellEquals(vars, b, y, C.Neg(Num(1)), r, C.CValue(C.I32, -1));
    EvalBoth(vars, C.Bin(C.Eq, C.Var(x), MinMacro(b)), C.Bin(C.Eq, C.Var(y), C.Neg(Num(1))), l == Minimum(b, true), r == -1);
  }

  function Divided(op: IntOp, l: int, r: int): int
    requires r != 0
  {
    if op.OpDiv? then TruncDiv(l, r) else TruncRem(l, r)
  }

  predicate MinOverMinusOne(b: IntWidth, signed: bool, l: int, r: int) { signed && l == Minimum(b, true) && r == -1 }

  lemma DividedInRange(op: IntOp, b: IntWidth, signed: bool, l: int, r: int)
    requires InRange(l, b, signed) && InRange(r, b, signed) && r != 0 && IsDivision(op)
    requires op.OpDiv? ==> !MinOverMinusOne(b, signed, l, r)
    ensures InRange(Divided(op, l, r), b, signed)
  {
    TruncDivBound(l, r);
    TruncRemBound(l, r);
  }

  lemma EvalQuotientSigned(vars: C.Locals, op: IntOp, b: IntWidth, x: string, y: string, l: int, r: int)
    requires Operands(vars, x, y, b, l, r) && InRange(l, b, true) && InRange(r, b, true) && r != 0 && IsDivision(op)
    requires !MinOverMinusOne(b, true, l, r)
    ensures C.Eval(QuotientExpr(op, b, true, CellType(b), x, y), vars) == C.Ok(C.CValue(CellType(b), Divided(op, l, r)))
  {
    hide Wrap, TruncDiv, TruncRem;
    CellOfSigned(l, b);
    CellOfSigned(r, b);
    C.ToTypeFixes(CellType(b), l);
    C.ToTypeFixes(CellType(b), r);
    DividedInRange(OpDiv, b, true, l, r);
    DividedInRange(op, b, true, l, r);
    EvalCast(vars, CellType(b), C.Var(x), C.CValue(CellType(b), l));
    EvalBin(vars, ArithmeticOp(op), C.Cast(CellType(b), C.Var(x)), C.Var(y), C.CValue(CellType(b), l), C.CValue(CellType(b), r));
  }

  lemma EvalQuotientUnsigned(vars: C.Locals, op: IntOp, b: IntWidth, x: string, y: string, l: int, r: int)
    requires Operands(vars, x, y, b, l, r) && InRange(l, b, false) && InRange(r, b, false) && r != 0 && IsDivision(op)
    ensures C.Eval(QuotientExpr(op, b, false, CellType(b), x, y), vars) == C.Ok(C.CValue(UnsignedType(b), Divided(op, l, r)))
  {
    hide Wrap, TruncDiv, TruncRem;
    var u := UnsignedType(b);
    CellOfUnsigned(l, b);
    CellOfUnsigned(r, b);
    EvalCast(vars, u, C.Var(x), C.CValue(CellType(b), CellOf(l, b)));
    EvalCast(vars, u, C.Var(y), C.CValue(CellType(b), CellOf(r, b)));
    EvalCast(vars, CellType(b), C.Cast(u, C.Var(x)), C.CValue(u, l));
    C.ToTypeFixes(u, r);
    DividedInRange(OpDiv, b, false, l, r);
    DividedInRange(op, b, false, l, r);
    UnsignedQuotient(op, b, l, r);
    EvalBin(vars, ArithmeticOp(op), C.Cast(CellType(b), C.Cast(u, C.Var(x))), C.Cast(u, C.Var(y)),
            C.CValue(CellType(b), CellOf(l, b)), C.CValue(u, r));
  }

  /** The unsigned C operation on in-range operands does not wrap. */
  lemma UnsignedQuotient(op: IntOp, b: IntWidth, l: int, r: int)
    requires r != 0 && InRange(Divided(op, l, r), b, false) && InRange(TruncDiv(l, r), b, false) && IsDivision(op)
    ensures C.Arithmetic(ArithmeticOp(op), UnsignedType(b), l, r) == C.Ok(C.CValue(UnsignedType(b), Divided(op, l, r)))
  {
    WrapFixes(Divided(op, l, r), CellModulus(b), false);
  }

  /** What `div` and `mod` leave. */
  function DivisionOutcome(op: IntOp, b: IntWidth, signed: bool, l: int, r: int): Option<int> {
    if r == 0 || (op.OpDiv? && MinOverMinusOne(b, signed, l, r)) then None
    else Some(CellOf(Divided(op, l, r), b))
  }

  lemma RunZeroGuard(b: IntWidth, signed: bool, y: string, r: int, rest: seq<C.Stmt>, depth: nat, st: C.State)
    requires Holds(st.vars, y, CellType(b), CellOf(r, b)) && InRange(r, b, signed)
    ensures C.Run([TrapIf(C.Bin(C.Eq, C.Var(y), Num(0)))] + rest, depth, st)
         == if r == 0 then C.Left(st.mem, 1) else C.Run(rest, depth, st)
  {
    CellZero(r, b, signed);
    EvalCellEquals(st.vars, b, y, Num(0), CellOf(r, b), C.CValue(C.I32, 0));
    RunTrapIf(C.Bin(C.Eq, C.Var(y), Num(0)), depth, st);
    RunCons(TrapIf(C.Bin(C.Eq, C.Var(y), Num(0))), rest, depth, st);
  }

  lemma RunQuotient(d: string, op: IntOp, b: IntWidth, signed: bool, x: string, y: string, l: int, r: int, depth: nat, st: C.State)
    requires Operands(st.vars, x, y, b, l, r) && InRange(l, b, signed) && InRange(r, b, signed) && r != 0 && IsDivision(op)
    requires IsValueName(d) && d in st.vars.types && st.vars.types[d] == CellType(b)
    requires !MinOverMinusOne(b, signed, l, r)
    ensures Assigns(st, C.Run([C.Assign(d, QuotientExpr(op, b, signed, CellType(b), x, y))], depth, st), d, CellOf(Divided(op, l, r), b))
  {
    hide Wrap, TruncDiv, TruncRem;
    if signed {
      EvalQuotientSigned(st.vars, op, b, x, y, l, r);
    } else {
      EvalQuotientUnsigned(st.vars, op, b, x, y, l, r);
    }
    RunAssign(d, QuotientExpr(op, b, signed, CellType(b), x, y), CellOf(Divided(op, l, r), b), depth, st);
  }

  lemma RunDivision(d: string, op: IntOp, b: IntWidth, signed: bool, x: string, y: string, l: int, r: int, depth: nat, st: C.State)
    requires Operands(st.vars, x, y, b, l, r) && InRange(l, b, signed) && InRange(r, b, signed) && IsDivision(op)
    requires IsValueName(d) && d in st.vars.types && st.vars.types[d] == CellType(b)
    ensures Leaves(st, C.Run(DivisionCode(d, op, b, signed, CellType(b), x, y), depth, st), d, DivisionOutcome(op, b, signed, l, r))
  {
    hide Wrap, TruncDiv, TruncRem;
    var code := DivisionCode(d, op, b, signed, CellType(b), x, y);
    var divide := C.Assign(d, QuotientExpr(op, b, signed, CellType(b), x, y));
    assert code == [code[0]] + code[1..];
    RunZeroGuard(b, signed, y, r, code[1..], depth, st);
    if r != 0 {
      if !signed {
        assert code[1..] == [divide];
        RunQuotient(d, op, b, signed, x, y, l, r, depth, st);
      } else {
        RunEdge(d, op, b, x, y, l, r, depth, st);
      }
    }
  }

  /** The signed tail after the zero guard. */
  lemma RunEdge(d: string, op: IntOp, b: IntWidth, x: string, y: string, l: int, r: int, depth: nat, st: C.State)
    requires Operands(st.vars, x, y, b, l, r) && InRange(l, b, true) && InRange(r, b, true) && IsDivision(op) && r != 0
    requires IsValueName(d) && d in st.vars.types && st.vars.types[d] == CellType(b)
    ensures Leaves(st, C.Run(DivisionCode(d, op, b, true, CellType(b), x, y)[1..], depth, st), d, DivisionOutcome(op, b, true, l, r))
  {
    hide Wrap, TruncDiv, TruncRem;
    var rest := DivisionCode(d, op, b, true, CellType(b), x, y)[1..];
    var divide := C.Assign(d, QuotientExpr(op, b, true, CellType(b), x, y));
    var edge := EdgeTest(b, x, y);
    EvalEdge(st.vars, b, x, y, l, r);
    if op.OpDiv? {
      assert rest == [TrapIf(edge)] + [divide];
      RunTrapIf(edge, depth, st);
      RunCons(TrapIf(edge), [divide], depth, st);
      if !MinOverMinusOne(b, true, l, r) {
        RunQuotient(d, op, b, true, x, y, l, r, depth, st);
      }
    } else {
      var clear := C.Assign(d, C.Cast(CellType(b), Num(0)));
      assert rest == [C.If(edge, [clear], [divide])];
      RunOne(C.If(edge, [clear], [divide]), depth, st);
      if MinOverMinusOne(b, true, l, r) {
        MinRemainder(l);
        ZeroCell(b);
        RunAssign(d, C.Cast(CellType(b), Num(0)), 0, depth, st);
      } else {
        RunQuotient(d, op, b, true, x, y, l, r, depth, st);
      }
    }
  }

  lemma MinRemainder(l: int)
    ensures TruncRem(l, -1) == 0
  {
    TruncBySign(l, -1);
  }

  lemma ZeroCell(b: IntWidth)
    ensures CellOf(0, b) == 0 && C.ToType(CellType(b), 0) == 0
  {
    WrapFixes(0, CellModulus(b), true);
  }

  // ---------- Checked and saturating arithmetic ----------

  lemma EvalWiden(vars: C.Locals, b: IntWidth, signed: bool, x: string, l: int)
    requires Holds(vars, x, CellType(b), CellOf(l, b)) && InRange(l, b, signed)
    ensures C.Eval(Widen(b, signed, x), vars) == C.Ok(C.CValue(WideType(signed), l))
  {
    hide Wrap;
    C.ToTypeFixes(WideType(signed), l);
    if signed {
      CellOfSigned(l, b);
      EvalCast(vars, C.I128, C.Var(x), C.CValue(CellType(b), l));
    } else {
      CellOfUnsigned(l, b);
      EvalCast(vars, UnsignedType(b), C.Var(x), C.CValue(CellType(b), CellOf(l, b)));
      EvalCast(vars, C.U128, C.Cast(UnsignedType(b), C.Var(x)), C.CValue(UnsignedType(b), l));
    }
  }

  /** The 128-bit intermediate: exact when signed, exact modulo 2^128 otherwise. */
  function WideValue(op: IntOp, signed: bool, l: int, r: int): int {
    if signed then Raw(op, l, r) else Raw(op, l, r) % TWO_128
  }

  lemma RawBounds(op: IntOp, b: IntWidth, signed: bool, l: int, r: int)
    requires InRange(l, b, signed) && InRange(r, b, signed) && (op.OpAdd? || op.OpSub? || op.OpMul?)
    ensures signed ==> -TWO_127 <= Raw(op, l, r) < TWO_127
    ensures !signed ==> -TWO_64 < Raw(op, l, r) < TWO_128
    ensures !signed ==> Raw(op, l, r) < 0 ==> op.OpSub?
    ensures !signed ==> WideValue(op, signed, l, r) == if Raw(op, l, r) < 0 then Raw(op, l, r) + TWO_128 else Raw(op, l, r)
  {
    if signed {
      MulBound(l, r, TWO_63, TWO_63);
    } else {
      MulMonotone(l, r, TWO_64 - 1, TWO_64 - 1);
      if Raw(op, l, r) < 0 {
        ModUnique(Raw(op, l, r), TWO_128, -1, Raw(op, l, r) + TWO_128);
      } else {
        ModUnique(Raw(op, l, r), TWO_128, 0, Raw(op, l, r));
      }
    }
  }

  lemma EvalWide(vars: C.Locals, op: IntOp, b: IntWidth, signed: bool, x: string, y: string, l: int, r: int)
    requires Operands(vars, x, y, b, l, r) && InRange(l, b, signed) && InRange(r, b, signed)
    requires op.OpAdd? || op.OpSub? || op.OpMul?
    ensures C.Eval(C.Bin(ArithmeticOp(op), Widen(b, signed, x), Widen(b, signed, y)), vars)
         == C.Ok(C.CValue(WideType(signed), WideValue(op, signed, l, r)))
    ensures C.Fits(WideType(signed), WideValue(op, signed, l, r))
  {
    hide Wrap;
    var t := WideType(signed);
    EvalWiden(vars, b, signed, x, l);
    EvalWiden(vars, b, signed, y, r);
    C.ToTypeFixes(t, l);
    C.ToTypeFixes(t, r);
    RawBounds(op, b, signed, l, r);
    EvalBin(vars, ArithmeticOp(op), Widen(b, signed, x), Widen(b, signed, y), C.CValue(t, l), C.CValue(t, r));
  }

  lemma EvalLimits(vars: C.Locals, b: IntWidth, signed: bool)
    ensures C.Eval(MaxLiteral(b, signed), vars) == C.Ok(C.CValue(if signed then C.I64 else C.U64, Maximum(b, signed)))
    ensures C.Eval(MinLiteral(b, signed), vars) == C.Ok(C.CValue(if signed then C.I64 else C.U64, Minimum(b, signed)))
  {
    hide Wrap;
    if signed {
      if b.B64? {
        C.ToTypeFixes(C.I64, TWO_63 - 1);
        C.ToTypeFixes(C.I64, -(TWO_63 - 1));
        C.ToTypeFixes(C.I64, 1);
        var low := C.Neg(C.Lit(TWO_63 - 1, C.SuffixLL));
        assert C.Eval(low, vars) == C.Ok(C.CValue(C.I64, -(TWO_63 - 1)));
        EvalBin(vars, C.Sub, low, Num(1), C.CValue(C.I64, -(TWO_63 - 1)), C.CValue(C.I32, 1));
      } else {
        C.ToTypeFixes(C.I64, IntModulus(b) / 2);
      }
    }
  }

  /** Comparing the intermediate with a limit. */
  lemma EvalRange(vars: C.Locals, b: IntWidth, signed: bool, w: int)
    requires Holds(vars, "mncs_wide", WideType(signed), w) && C.Fits(WideType(signed), w)
    ensures C.Eval(Above(b, signed), vars) == C.Truth(w > Maximum(b, signed))
    ensures C.Eval(Below(b, signed), vars) == C.Truth(w < Minimum(b, signed))
  {
    hide Wrap;
    var t := WideType(signed);
    EvalLimits(vars, b, signed);
    C.ToTypeFixes(t, w);
    C.ToTypeFixes(t, Maximum(b, signed));
    C.ToTypeFixes(t, Minimum(b, signed));
    var limit := if signed then C.I64 else C.U64;
    EvalBin(vars, C.Gt, C.Var("mncs_wide"), MaxLiteral(b, signed), C.CValue(t, w), C.CValue(limit, Maximum(b, signed)));
    EvalBin(vars, C.Lt, C.Var("mncs_wide"), MinLiteral(b, signed), C.CValue(t, w), C.CValue(limit, Minimum(b, signed)));
  }

  lemma RunWide(op: IntOp, b: IntWidth, signed: bool, x: string, y: string, l: int, r: int, depth: nat, st: C.State)
    requires Operands(st.vars, x, y, b, l, r) && InRange(l, b, signed) && InRange(r, b, signed)
    requires op.OpAdd? || op.OpSub? || op.OpMul?
    ensures C.Run([WideCode(b, signed, op, x, y)], depth, st)
         == C.Next(WithTemp(st, WideType(signed), "mncs_wide", WideValue(op, signed, l, r)))
    ensures C.Fits(WideType(signed), WideValue(op, signed, l, r))
  {
    hide Wrap;
    EvalWide(st.vars, op, b, signed, x, y, l, r);
    C.ToTypeFixes(WideType(signed), WideValue(op, signed, l, r));
    RunDeclare(WideType(signed), "mncs_wide", WideCode(b, signed, op, x, y).e, WideValue(op, signed, l, r), depth, st);
  }

  function CheckedOutcome(op: IntOp, b: IntWidth, signed: bool, l: int, r: int): Option<int> {
    if InRange(Raw(op, l, r), b, signed) then Some(CellOf(Raw(op, l, r), b)) else None
  }

  lemma WideInRange(op: IntOp, b: IntWidth, signed: bool, l: int, r: int)
    requires InRange(l, b, signed) && InRange(r, b, signed) && (op.OpAdd? || op.OpSub? || op.OpMul?)
    ensures var w := WideValue(op, signed, l, r);
            && (InRange(Raw(op, l, r), b, signed) <==> !(w > Maximum(b, signed)) && !(w < Minimum(b, signed)))
            && (InRange(Raw(op, l, r), b, signed) ==> w == Raw(op, l, r))
  {
    RawBounds(op, b, signed, l, r);
  }

  lemma EvalOutside(vars: C.Locals, b: IntWidth, signed: bool, w: int)
    requires Holds(vars, "mncs_wide", WideType(signed), w) && C.Fits(WideType(signed), w)
    ensures C.Eval(C.Bin(C.LogicalOr, Above(b, signed), Below(b, signed)), vars)
         == C.Truth(w > Maximum(b, signed) || w < Minimum(b, signed))
  {
    hide Wrap, Above, Below;
    EvalRange(vars, b, signed, w);
  }

  lemma RunChecked(d: string, op: IntOp, b: IntWidth, signed: bool, x: string, y: string, l: int, r: int, depth: nat, st: C.State)
    requires Operands(st.vars, x, y, b, l, r) && InRange(l, b, signed) && InRange(r, b, signed)
    requires op.OpAdd? || op.OpSub? || op.OpMul?
    requires IsValueName(d) && d in st.vars.types && st.vars.types[d] == CellType(b)
    ensures Leaves(st, C.Run(CheckedCode(d, op, b, signed, CellType(b), x, y), depth, st), d, CheckedOutcome(op, b, signed, l, r))
  {
    hide Wrap, Raw, C.Run, C.Eval, WideValue, Above, Below;
    var code := CheckedCode(d, op, b, signed, CellType(b), x, y);
    var w := WideValue(op, signed, l, r);
    var st1 := WithTemp(st, WideType(signed), "mncs_wide", w);
    RunWide(op, b, signed, x, y, l, r, depth, st);
    TempsOnly(st, WideType(signed), "mncs_wide", w);
    EvalOutside(st1.vars, b, signed, w);
    WideInRange(op, b, signed, l, r);
    var test := C.Bin(C.LogicalOr, Above(b, signed), Below(b, signed));
    RunTrapIf(test, depth, st1);
    assert code == [code[0]] + ([TrapIf(test)] + [code[2]]);
    RunCons(code[0], [TrapIf(test)] + [code[2]], depth, st);
    RunCons(TrapIf(test), [code[2]], depth, st1);
    if InRange(Raw(op, l, r), b, signed) {
      FinalCast(d, "mncs_wide", WideType(signed), b, w, depth, st, st1);
    }
  }

  /** What the saturating code clamps to: an unsigned difference below zero has
      wrapped to the top of the 128-bit range by the time it is compared. */
  function Saturated(op: IntOp, b: IntWidth, signed: bool, l: int, r: int): int {
    if !signed && Raw(op, l, r) < 0 then Maximum(b, signed)
    else Clamp(Raw(op, l, r), Minimum(b, signed), Maximum(b, signed))
  }

  lemma RunClamp(b: IntWidth, signed: bool, w: int, above: bool, depth: nat, st: C.State)
    requires C.Fits(WideType(signed), w)
    ensures var limit := if above then Maximum(b, signed) else Minimum(b, signed);
            var literal := if above then MaxLiteral(b, signed) else MinLiteral(b, signed);
            var next := if above then (if w > limit then limit else w) else if w < limit then limit else w;
            && C.Fits(WideType(signed), next)
            && C.Run([C.If(if above then Above(b, signed) else Below(b, signed), [C.Assign("mncs_wide", literal)], [])], depth,
                     WithTemp(st, WideType(signed), "mncs_wide", w))
            == C.Next(WithTemp(st, WideType(signed), "mncs_wide", next))
  {
    hide Wrap, C.Eval, C.Run, Above, Below, MaxLiteral, MinLiteral;
    var t := WideType(signed);
    var st1 := WithTemp(st, t, "mncs_wide", w);
    var limit := if above then Maximum(b, signed) else Minimum(b, signed);
    var literal := if above then MaxLiteral(b, signed) else MinLiteral(b, signed);
    TempsOnly(st, t, "mncs_wide", w);
    EvalRange(st1.vars, b, signed, w);
    EvalLimits(st1.vars, b, signed);
    C.ToTypeFixes(t, limit);
    RunReassign("mncs_wide", literal, limit, depth, st1);
    assert st1.vars.values["mncs_wide" := limit] == WithTemp(st, t, "mncs_wide", limit).vars.values;
    RunNone(depth, st1);
    RunOne(C.If(if above then Above(b, signed) else Below(b, signed), [C.Assign("mncs_wide", literal)], []), depth, st1);
  }

  lemma RunSaturating(d: string, op: IntOp, b: IntWidth, signed: bool, x: string, y: string, l: int, r: int, depth: nat, st: C.State)
    requires Operands(st.vars, x, y, b, l, r) && InRange(l, b, signed) && InRange(r, b, signed)
    requires op.OpAdd? || op.OpSub? || op.OpMul?
    requires IsValueName(d) && d in st.vars.types && st.vars.types[d] == CellType(b)
    ensures Assigns(st, C.Run(SaturatingCode(d, op, b, signed, CellType(b), x, y), depth, st), d, CellOf(Saturated(op, b, signed, l, r), b))
  {
    hide Wrap;
    var code := SaturatingCode(d, op, b, signed, CellType(b), x, y);
    var t, w := WideType(signed), WideValue(op, signed, l, r);
    var w1 := if w > Maximum(b, signed) then Maximum(b, signed) else w;
    var w2 := if w1 < Minimum(b, signed) then Minimum(b, signed) else w1;
    RawBounds(op, b, signed, l, r);
    assert w2 == Saturated(op, b, signed, l, r);
    RunWide(op, b, signed, x, y, l, r, depth, st);
    RunClamp(b, signed, w, true, depth, st);
    RunClamp(b, signed, w1, false, depth, st);
    TempsOnly(st, t, "mncs_wide", w2);
    assert code == [code[0]] + [code[1], code[2], code[3]];
    RunCons(code[0], [code[1], code[2], code[3]], depth, st);
    RunThree(code[1], code[2], code[3], depth, WithTemp(st, t, "mncs_wide", w), WithTemp(st, t, "mncs_wide", w1), WithTemp(st, t, "mncs_wide", w2));
    FinalCast(d, "mncs_wide", t, b, w2, depth, st, WithTemp(st, t, "mncs_wide", w2));
  }

  // ---------- Every integer instruction ----------

  /** The cell that the emitted code leaves for an integer instruction; `None` is a trap. */
  function IntegerOutcome(op: IntOp, b: IntWidth, signed: bool, intent: Intent, permitted: bool, l: int, r: int): Option<int> {
    if IsBitwise(op) then Some(CellOf(EvaluateBitwise(op, b, signed, l, r), b))
    else if op.OpShl? then Some(CellOf(ShiftedLeft(b, l, r), b))
    else if op.OpShr? then Some(CellOf(l / Pow2(r % BitCount(b)), b))
    else if IsDivision(op) then DivisionOutcome(op, b, signed, l, r)
    else if (intent.Checked? || intent.Trapping?) && !permitted then CheckedOutcome(op, b, signed, l, r)
    else if intent.Saturating? then Some(CellOf(Saturated(op, b, signed, l, r), b))
    else Some(CellOf(Raw(op, l, r) % IntModulus(b), b))
  }

  lemma RunInteger(d: string, ty: Ty, op: IntOp, intent: Intent, permitted: bool, x: string, y: string, l: int, r: int, depth: nat, st: C.State)
    requires ty.TInt? && InRange(l, ty.bits, ty.signed) && InRange(r, ty.bits, ty.signed)
    requires Operands(st.vars, x, y, ty.bits, l, r) && IsValueName(x) && IsValueName(y) && IsValueName(d)
    requires d in st.vars.types && st.vars.types[d] == CTypeOf(ty)
    ensures Leaves(st, C.Run(IntegerCode(d, ty, op, intent, permitted, x, y), depth, st), d,
                   IntegerOutcome(op, ty.bits, ty.signed, intent, permitted, l, r))
  {
    hide Wrap, Bitwise, Pow2, TruncDiv, TruncRem;
    var b, signed := ty.bits, ty.signed;
    if IsBitwise(op) {
      EvalBitwise(st.vars, op, b, signed, x, y, l, r);
      var e := C.Cast(CellType(b), C.Bin(ArithmeticOp(op), AsU64(x), AsU64(y)));
      Idempotent(CellType(b), EvaluateBitwise(op, b, signed, l, r));
      RunAssign(d, e, CellOf(EvaluateBitwise(op, b, signed, l, r), b), depth, st);
    } else if op.OpShl? {
      RunShiftLeft(d, b, x, y, l, r, depth, st);
    } else if op.OpShr? {
      RunShiftRight(d, b, signed, x, y, l, r, depth, st);
    } else if IsDivision(op) {
      RunDivision(d, op, b, signed, x, y, l, r, depth, st);
    } else if (intent.Checked? || intent.Trapping?) && !permitted {
      RunChecked(d, op, b, signed, x, y, l, r, depth, st);
    } else if intent.Saturating? {
      RunSaturating(d, op, b, signed, x, y, l, r, depth, st);
    } else {
      EvalWrapping(st.vars, op, b, x, y, l, r);
      Idempotent(CellType(b), Raw(op, l, r) % IntModulus(b));
      RunAssign(d, WrappingExpr(op, b, CellType(b), x, y), CellOf(Raw(op, l, r) % IntModulus(b), b), depth, st);
    }
  }

  lemma RunShiftRight(d: string, b: IntWidth, signed: bool, x: string, y: string, l: int, r: int, depth: nat, st: C.State)
    requires Operands(st.vars, x, y, b, l, r) && InRange(l, b, signed)
    requires IsValueName(d) && d in st.vars.types && st.vars.types[d] == CellType(b)
    ensures Assigns(st, C.Run([C.Assign(d, C.Cast(CellType(b), ShiftRightExpr(b, signed, x, y)))], depth, st), d,
                    CellOf(l / Pow2(r % BitCount(b)), b))
  {
    hide Wrap, Pow2;
    var n := l / Pow2(r % BitCount(b));
    if signed {
      EvalShiftRightSigned(st.vars, b, x, y, l, r);
    } else {
      EvalShiftRightUnsigned(st.vars, b, x, y, l, r);
    }
    EvalCast(st.vars, CellType(b), ShiftRightExpr(b, signed, x, y), C.CValue(if signed then C.I64 else C.U64, n));
    Idempotent(CellType(b), n);
    RunAssign(d, C.Cast(CellType(b), ShiftRightExpr(b, signed, x, y)), CellOf(n, b), depth, st);
  }

  // ---------- Exactness ----------

  /** When the emitted code for an integer instruction agrees with the reference
      executor, read off the operands before the instruction runs. */
  predicate IntegerEnvelope(op: IntOp, b: IntWidth, signed: bool, intent: Intent, permitted: bool, l: int, r: int) {
    var narrow := signed && (b.B8? || b.B16?);
    match op
    case OpAnd | OpOr | OpXor => true
    case OpShl => r >= 0 && (narrow ==> ShiftedLeft(b, l, r) < IntModulus(b) / 2)
    case OpShr => r >= 0
    case OpDiv =>
      && ((intent.Wrapping? || intent.Saturating?) ==> !MinOverMinusOne(b, signed, l, r))
      && (intent.Saturating? ==> r != 0)
    case OpMod => intent.Saturating? ==> r != 0
    case _ =>
      if intent.Saturating? then !signed && op.OpSub? ==> l >= r
      else if intent.Wrapping? then narrow ==> Raw(op, l, r) % IntModulus(b) < IntModulus(b) / 2
      else permitted ==> InRange(Raw(op, l, r), b, signed) && (narrow ==> Raw(op, l, r) >= 0)
  }

  function CellResult(v: Option<int>, b: IntWidth): Option<int> {
    if v.Some? then Some(CellOf(v.value, b)) else None
  }

  lemma SameCellResult(x: int, y: int, b: IntWidth, signed: bool)
    requires InRange(x, b, signed) && InRange(y, b, signed)
    ensures CellOf(x, b) == CellOf(y, b) <==> x == y
  {
    if CellOf(x, b) == CellOf(y, b) {
      CellInjective(x, y, b, signed);
    }
  }

  /** The cell a pattern in `[0, 2^w)` becomes is right unless a narrow signed
      result should have been negative. */
  lemma PatternCell(w: int, b: IntWidth, signed: bool)
    requires 0 <= w < IntModulus(b)
    ensures CellOf(w, b) == CellOf(WrapToBits(w, b, signed), b)
       <==> (signed && (b.B8? || b.B16?) ==> w < IntModulus(b) / 2)
  {
    WrapFixes(w, IntModulus(b), false);
    if signed {
      SignedPattern(w, b);
    }
  }

  lemma SignedPattern(w: int, b: IntWidth)
    requires 0 <= w < IntModulus(b)
    ensures WrapToBits(w, b, true) == Adjusted(w, IntModulus(b), true)
    ensures CellOf(w, b) == CellOf(Adjusted(w, IntModulus(b), true), b)
       <==> ((b.B8? || b.B16?) ==> w < IntModulus(b) / 2)
  {
    var m := IntModulus(b);
    ModUnique(w, m, 0, w);
    if b.B32? || b.B64? {
      SameCell(w, b, true);
    } else {
      hide Wrap;
      WrapFixes(Adjusted(w, m, true), TWO_32, true);
      WrapFixes(w, TWO_32, true);
    }
  }

  /** Wrapping the 128-bit product first changes nothing. */
  lemma WrappedRaw(op: IntOp, b: IntWidth, signed: bool, l: int, r: int)
    requires op.OpAdd? || op.OpSub? || op.OpMul?
    ensures EvaluateWrapping(op, b, signed, l, r) == Some(WrapToBits(Raw(op, l, r) % IntModulus(b), b, signed))
  {
    var m := IntModulus(b);
    WrapResidue(l * r, TWO_128, true);
    ModOfMod(Wrap(l * r, TWO_128, true), TWO_128, m, TWO_128 / m);
    ModOfMod(l * r, TWO_128, m, TWO_128 / m);
    WrapResidue(Raw(op, l, r), m, false);
    WrapFixes(Raw(op, l, r) % m, m, false);
    ModUnique(Raw(op, l, r) % m, m, 0, Raw(op, l, r) % m);
  }

  lemma ShiftExact(op: IntOp, b: IntWidth, signed: bool, permitted: bool, l: int, r: int)
    requires InRange(l, b, signed) && InRange(r, b, signed) && IsShift(op)
    ensures IntegerOutcome(op, b, signed, Wrapping, permitted, l, r) == CellResult(EvaluateShift(op, b, signed, l, r), b)
       <==> IntegerEnvelope(op, b, signed, Wrapping, permitted, l, r)
  {
    hide Pow2;
    if r >= 0 {
      if op.OpShl? {
        PatternCell(ShiftedLeft(b, l, r), b, signed);
      } else {
        RightShiftValue(b, signed, l, Pow2(r % BitCount(b)));
      }
    }
  }

  /** The reference right shift is floor division, and stays in range. */
  lemma RightShiftValue(b: IntWidth, signed: bool, l: int, d: int)
    requires InRange(l, b, signed) && d > 0
    ensures WrapToBits(if signed then (l / d) % IntModulus(b) else (l % IntModulus(b)) / d, b, signed) == l / d
  {
    var m := IntModulus(b);
    FloorBound(l, d);
    if signed {
      ModUnique((l / d) % m, m, 0, (l / d) % m);
      WrapFixes(l / d, m, true);
      WrapCongruent((l / d) % m, l / d, m, true);
    } else {
      WrapFixes(l, m, false);
      WrapFixes(l / d, m, false);
    }
  }

  lemma DivisionExact(op: IntOp, b: IntWidth, signed: bool, intent: Intent, permitted: bool, l: int, r: int)
    requires InRange(l, b, signed) && InRange(r, b, signed) && IsDivision(op)
    ensures IntegerOutcome(op, b, signed, intent, permitted, l, r) == CellResult(EvaluateInteger(op, b, signed, intent, l, r), b)
       <==> IntegerEnvelope(op, b, signed, intent, permitted, l, r)
  {
    hide Wrap, TruncDiv, TruncRem;
    if r != 0 {
      if op.OpDiv? && MinOverMinusOne(b, signed, l, r) {
        MinQuotient(l);
      } else {
        DividedInRange(op, b, signed, l, r);
        WrapFixes(Divided(op, l, r), IntModulus(b), signed);
      }
    }
  }

  lemma MinQuotient(l: int)
    requires l <= 0
    ensures TruncDiv(l, -1) == -l
  {
    TruncBySign(l, -1);
  }

  lemma SaturatingExact(op: IntOp, b: IntWidth, signed: bool, permitted: bool, l: int, r: int)
    requires InRange(l, b, signed) && InRange(r, b, signed) && (op.OpAdd? || op.OpSub? || op.OpMul?)
    ensures IntegerOutcome(op, b, signed, Saturating, permitted, l, r) == CellResult(EvaluateInteger(op, b, signed, Saturating, l, r), b)
       <==> IntegerEnvelope(op, b, signed, Saturating, permitted, l, r)
  {
    hide Wrap;
    RawBounds(op, b, signed, l, r);
    var exact := Clamp(Raw(op, l, r), Minimum(b, signed), Maximum(b, signed));
    ReferenceSaturates(op, b, signed, l, r);
    SameCellResult(Saturated(op, b, signed, l, r), exact, b, signed);
  }

  /** The reference clamps the exact result, even where 128 bits cannot hold it. */
  lemma ReferenceSaturates(op: IntOp, b: IntWidth, signed: bool, l: int, r: int)
    requires InRange(l, b, signed) && InRange(r, b, signed) && (op.OpAdd? || op.OpSub? || op.OpMul?)
    ensures EvaluateInteger(op, b, signed, Saturating, l, r) == Some(Clamp(Raw(op, l, r), Minimum(b, signed), Maximum(b, signed)))
  {
    RawBounds(op, b, signed, l, r);
  }

  /** The reference's checked result is the exact one when it is in range. */
  lemma CheckedValue(op: IntOp, b: IntWidth, signed: bool, intent: Intent, l: int, r: int)
    requires InRange(l, b, signed) && InRange(r, b, signed) && (op.OpAdd? || op.OpSub? || op.OpMul?)
    requires intent.Checked? || intent.Trapping?
    ensures var raw := Raw(op, l, r);
            EvaluateInteger(op, b, signed, intent, l, r) == if InRange(raw, b, signed) then Some(raw) else None
  {
    hide Wrap;
    RawBounds(op, b, signed, l, r);
  }

  lemma CheckedExact(op: IntOp, b: IntWidth, signed: bool, intent: Intent, permitted: bool, l: int, r: int)
    requires InRange(l, b, signed) && InRange(r, b, signed) && (op.OpAdd? || op.OpSub? || op.OpMul?)
    requires intent.Checked? || intent.Trapping?
    ensures IntegerOutcome(op, b, signed, intent, permitted, l, r) == CellResult(EvaluateInteger(op, b, signed, intent, l, r), b)
       <==> IntegerEnvelope(op, b, signed, intent, permitted, l, r)
  {
    hide Wrap, EvaluateInteger, Raw;
    var raw, m := Raw(op, l, r), IntModulus(b);
    CheckedValue(op, b, signed, intent, l, r);
    if permitted && InRange(raw, b, signed) {
      PatternCell(raw % m, b, signed);
      PatternOf(raw, b, signed);
    }
  }

  lemma PatternOf(n: int, b: IntWidth, signed: bool)
    requires InRange(n, b, signed)
    ensures WrapToBits(n % IntModulus(b), b, signed) == n
    ensures signed ==> (n % IntModulus(b) < IntModulus(b) / 2 <==> n >= 0)
  {
    var m := IntModulus(b);
    WrapFixes(n, m, signed);
    ModUnique(n % m, m, 0, n % m);
    WrapCongruent(n % m, n, m, signed);
  }

  /** The emitted integer code agrees with the reference executor exactly inside
      the envelope: same cell when there is a value, a trap when there is none. */
  lemma IntegerExact(op: IntOp, b: IntWidth, signed: bool, intent: Intent, permitted: bool, l: int, r: int)
    requires InRange(l, b, signed) && InRange(r, b, signed) && OperatorSupported(op, intent)
    ensures IntegerOutcome(op, b, signed, intent, permitted, l, r) == CellResult(EvaluateInteger(op, b, signed, intent, l, r), b)
       <==> IntegerEnvelope(op, b, signed, intent, permitted, l, r)
  {
    hide Wrap, Pow2, TruncDiv, TruncRem, Bitwise;
    if IsShift(op) {
      ShiftExact(op, b, signed, permitted, l, r);
    } else if IsDivision(op) {
      DivisionExact(op, b, signed, intent, permitted, l, r);
    } else if !IsBitwise(op) {
      if intent.Saturating? {
        SaturatingExact(op, b, signed, permitted, l, r);
      } else if intent.Wrapping? {
        WrappedRaw(op, b, signed, l, r);
        PatternCell(Raw(op, l, r) % IntModulus(b), b, signed);
      } else {
        CheckedExact(op, b, signed, intent, permitted, l, r);
      }
    }
  }

  /** The emitted statements themselves leave the reference result, or trap where
      the reference fails, exactly inside the envelope. */
  lemma IntegerCodeExact(d: string, ty: Ty, op: IntOp, intent: Intent, permitted: bool, x: string, y: string, l: int, r: int, depth: nat, st: C.State)
    requires ty.TInt? && InRange(l, ty.bits, ty.signed) && InRange(r, ty.bits, ty.signed) && OperatorSupported(op, intent)
    requires Operands(st.vars, x, y, ty.bits, l, r) && IsValueName(x) && IsValueName(y) && IsValueName(d)
    requires d in st.vars.types && st.vars.types[d] == CTypeOf(ty)
    ensures Leaves(st, C.Run(IntegerCode(d, ty, op, intent, permitted, x, y), depth, st), d,
                   CellResult(EvaluateInteger(op, ty.bits, ty.signed, intent, l, r), ty.bits))
       <==> IntegerEnvelope(op, ty.bits, ty.signed, intent, permitted, l, r)
  {
    hide EvaluateInteger, IntegerEnvelope, IntegerCode, IntegerOutcome;
    RunInteger(d, ty, op, intent, permitted, x, y, l, r, depth, st);
    IntegerExact(op, ty.bits, ty.signed, intent, permitted, l, r);
  }

  // ---------- Conversions ----------

  /** What `d = (cell type)x` leaves for an integer conversion. */
  function ConvertedCell(from: IntWidth, to: IntWidth, n: int): int { CellOf(CellOf(n, from), to) }

  /** When the bare cast is the declared conversion: widening an unsigned 32-bit
      value must not meet its sign bit, and narrowing to 8 or 16 bits must not
      need truncation. */
  predicate ConvertEnvelope(from: IntWidth, fromSigned: bool, to: IntWidth, toSigned: bool, n: int) {
    && (to.B64? && from.B32? && !fromSigned ==> n < TWO_31)
    && (to.B8? || to.B16? ==> InRange(Wrap(n, TWO_32, true), to, toSigned))
  }

  lemma ConvertExact(from: IntWidth, fromSigned: bool, to: IntWidth, toSigned: bool, n: int)
    requires InRange(n, from, fromSigned)
    ensures ConvertedCell(from, to, n) == CellOf(WrapToBits(n, to, toSigned), to)
       <==> ConvertEnvelope(from, fromSigned, to, toSigned, n)
  {
    hide Wrap;
    if to.B64? {
      ConvertWide(from, fromSigned, toSigned, n);
    } else {
      LowCell(from, to, n);
      if to.B32? {
        WordCell(n, toSigned);
      } else {
        NarrowCell(to, toSigned, n);
      }
    }
  }

  lemma ConvertWide(from: IntWidth, fromSigned: bool, toSigned: bool, n: int)
    requires InRange(n, from, fromSigned)
    ensures ConvertedCell(from, B64, n) == CellOf(WrapToBits(n, B64, toSigned), B64)
       <==> (from.B32? && !fromSigned ==> n < TWO_31)
  {
    WrapResidue(n, TWO_64, toSigned);
    WrapCongruent(WrapToBits(n, B64, toSigned), n, TWO_64, true);
    if from.B64? {
      Idempotent(C.I64, n);
    } else if !fromSigned && from.B32? && n >= TWO_31 {
      ModUnique(n, TWO_32, 0, n);
      WrapFixes(n - TWO_32, TWO_64, true);
      WrapFixes(n, TWO_64, true);
    } else {
      WrapFixes(n, TWO_32, true);
    }
  }

  /** Conversion to a cell of at most 32 bits sees only the value's low word. */
  lemma LowCell(from: IntWidth, to: IntWidth, n: int)
    requires !to.B64?
    ensures ConvertedCell(from, to, n) == Wrap(n, TWO_32, true)
  {
    WrapResidue(n, CellModulus(from), true);
    ModOfMod(CellOf(n, from), CellModulus(from), TWO_32, CellModulus(from) / TWO_32);
    ModOfMod(n, CellModulus(from), TWO_32, CellModulus(from) / TWO_32);
    WrapCongruent(CellOf(n, from), n, TWO_32, true);
  }

  lemma WordCell(n: int, toSigned: bool)
    ensures CellOf(WrapToBits(n, B32, toSigned), B32) == Wrap(n, TWO_32, true)
  {
    WrapResidue(n, TWO_32, toSigned);
    WrapCongruent(WrapToBits(n, B32, toSigned), n, TWO_32, true);
  }

  lemma NarrowCell(to: IntWidth, toSigned: bool, n: int)
    requires to.B8? || to.B16?
    ensures Wrap(n, TWO_32, true) == CellOf(WrapToBits(n, to, toSigned), to)
       <==> InRange(Wrap(n, TWO_32, true), to, toSigned)
  {
    var v, w, m := WrapToBits(n, to, toSigned), Wrap(n, TWO_32, true), IntModulus(to);
    WrapFixes(v, TWO_32, true);
    WrapResidue(n, TWO_32, true);
    ModOfMod(w, TWO_32, m, TWO_32 / m);
    ModOfMod(n, TWO_32, m, TWO_32 / m);
    WrapCongruent(w, n, m, toSigned);
    if InRange(w, to, toSigned) {
      WrapFixes(w, m, toSigned);
    }
  }
}
