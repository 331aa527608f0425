/** Construction, replacement and span copy: a fresh arena cell that holds exactly
    the functional update, with everything allocated before it unchanged. */
module SequenceSimulation {
  import opened Words
  import opened Mncs
  import opened Emit
  import opened Naming
  import opened IntegerLowering
  import opened Represent
  import opened Envelope
  import opened Relation
  import opened ScalarSimulation
  import opened ViewSimulation
  import opened Discipline
  import C = CLang
  import opened Execution

  // ---------- Slots as raw words ----------

  /** The words in consecutive slots from `base`. */
  ghost predicate Laid(m: C.Memory, w: C.Width, base: int, raws: seq<int>) {
    && 0 <= base
    && base + 8 * |raws| <= C.ARENA_BYTES
    && forall j | 0 <= j < |raws| :: C.SlotAt(m, w, base + 8 * j) == raws[j]
  }

  predicate AllWords(w: C.Width, raws: seq<int>) { forall j | 0 <= j < |raws| :: 0 <= raws[j] < Pow2(8 * C.SlotBytes(w)) }

  /** The words stand for the elements. */
  ghost predicate Raws(es: seq<Value>, e: Ty, raws: seq<int>, m: C.Memory) {
    && |raws| == |es|
    && AllWords(WidthFor(e), raws)
    && forall i | 0 <= i < |es| :: Rep(es[i], e, C.ToType(CTypeOf(e), raws[i]), m)
  }

  function RawSlots(m: C.Memory, w: C.Width, base: nat, n: nat): (r: seq<int>)
    ensures |r| == n
  {
    seq(n, i requires 0 <= i < n => C.SlotAt(m, w, base + 8 * i))
  }

  lemma SlotBound(m: C.Memory, w: C.Width, at: nat)
    ensures 0 <= C.SlotAt(m, w, at) < Pow2(8 * C.SlotBytes(w))
  {
    hide Pow2;
    Pow2Values();
    if m.Ok() && at + C.SlotBytes(w) <= C.ARENA_BYTES {
      FromBytesBound(m.arena[at..at + C.SlotBytes(w)]);
    }
  }

  /** A represented sequence, seen as words. */
  lemma RawsOf(es: seq<Value>, e: Ty, base: nat, m: C.Memory)
    requires Slots(es, e, base, m) && Valid(m)
    ensures Raws(es, e, RawSlots(m, WidthFor(e), base, |es|), m)
    ensures Laid(m, WidthFor(e), base, RawSlots(m, WidthFor(e), base, |es|))
  {
    hide Pow2, C.SlotAt, C.ToType, CTypeOf, Wrap, Rep;
    var raws := RawSlots(m, WidthFor(e), base, |es|);
    forall i | 0 <= i < |es|
      ensures 0 <= raws[i] < Pow2(8 * C.SlotBytes(WidthFor(e))) && Rep(es[i], e, C.ToType(CTypeOf(e), raws[i]), m)
    {
      SlotBound(m, WidthFor(e), base + 8 * i);
      assert Rep(es[i], e, SlotCell(m, e, base + 8 * i), m);
    }
  }

  /** Words laid in a later memory represent the same elements there. */
  lemma LaidSlots(es: seq<Value>, e: Ty, raws: seq<int>, base: nat, before: C.Memory, m: C.Memory)
    requires Raws(es, e, raws, before) && Extends(before, m) && Laid(m, WidthFor(e), base, raws) && base + 8 * |raws| <= m.bump
    ensures Slots(es, e, base, m)
  {
    hide Pow2;
    forall i | 0 <= i < |es|
      ensures Rep(es[i], e, SlotCell(m, e, base + 8 * i), m)
    {
      RepKept(es[i], e, C.ToType(CTypeOf(e), raws[i]), before, m);
    }
  }

  // ---------- A cell under construction ----------

  /** `m` has room for `n` slots at `base`, above everything `before` had
      allocated, and the first of them hold `raws`. */
  ghost predicate Filling(before: C.Memory, m: C.Memory, w: C.Width, base: int, n: nat, raws: seq<int>) {
    && Extends(before, m) && !m.failed
    && before.bump <= base && base + 8 * n == m.bump
    && |raws| <= n
    && Laid(m, w, base, raws)
  }

  lemma StoreExtends(before: C.Memory, m: C.Memory, w: C.Width, at: nat, v: nat)
    requires Extends(before, m) && !m.failed && before.bump <= at && InArena(w, at)
    ensures var m' := C.SlotStore(m, w, at, v); Extends(before, m') && !m'.failed && m'.bump == m.bump
  {
    hide ToBytes, FromBytes;
    StoreOk(m, w, at, v);
    StoreKeepsBelow(m, w, at, v, before.bump);
  }

  /** Storing the next word. */
  lemma FillNext(before: C.Memory, m: C.Memory, w: C.Width, base: int, n: nat, raws: seq<int>, v: nat)
    requires Filling(before, m, w, base, n, raws) && |raws| < n && v < Pow2(8 * C.SlotBytes(w))
    ensures Filling(before, C.SlotStore(m, w, base + 8 * |raws|, v), w, base, n, raws + [v])
  {
    hide Pow2, ToBytes, FromBytes, C.SlotStore;
    var at := base + 8 * |raws|;
    StoreExtends(before, m, w, at, v);
    StoreThenRead(m, w, at, v);
    var m', more := C.SlotStore(m, w, at, v), raws + [v];
    forall j | 0 <= j < |more|
      ensures C.SlotAt(m', w, base + 8 * j) == more[j]
    {
      if j < |raws| {
        StoreElsewhere(m, w, at, v, w, base + 8 * j);
      }
    }
  }

  /** Overwriting one word. */
  lemma FillUpdate(before: C.Memory, m: C.Memory, w: C.Width, base: int, n: nat, raws: seq<int>, i: nat, v: nat)
    requires Filling(before, m, w, base, n, raws) && i < |raws| && v < Pow2(8 * C.SlotBytes(w))
    ensures Filling(before, C.SlotStore(m, w, base + 8 * i, v), w, base, n, raws[i := v])
  {
    hide Pow2, ToBytes, FromBytes, C.SlotStore;
    var at := base + 8 * i;
    StoreExtends(before, m, w, at, v);
    StoreThenRead(m, w, at, v);
    var m', more := C.SlotStore(m, w, at, v), raws[i := v];
    forall j | 0 <= j < |more|
      ensures C.SlotAt(m', w, base + 8 * j) == more[j]
    {
      if j != i {
        StoreElsewhere(m, w, at, v, w, base + 8 * j);
      }
    }
  }

  /** The state once the destination's cell is allocated and partly filled. */
  ghost predicate Building(st: C.State, f: C.Flow, d: string, w: C.Width, base: int, n: nat, raws: seq<int>) {
    && f.Next?
    && Holds(f.st.vars, d, C.U64, base)
    && SameElsewhere(st.vars, f.st.vars, d)
    && Filling(st.mem, f.st.mem, w, base, n, raws)
  }

  /** `d = mncs_cell_alloc(bytes);` */
  lemma RunAlloc(d: string, e: C.Expr, t: C.CType, w: C.Width, n: nat, depth: nat, st: C.State)
    requires IsValueName(d) && d in st.vars.types && st.vars.types[d] == C.U64
    requires C.Eval(e, st.vars) == C.Ok(C.CValue(t, 8 * n)) && n <= MAX_SEQUENCE_BOUND
    requires Valid(st.mem) && !st.mem.failed
    ensures var f := C.Run([C.Alloc(d, e)], depth, st);
            && f.Next?
            && if Overruns(st.mem, 8 * n) then Exhausted(f.st.mem) else Building(st, f, d, w, AlignUp(st.mem.bump), n, [])
  {
    hide Wrap, C.Eval, C.CellAlloc;
    RunOne(C.Alloc(d, e), depth, st);
    C.ToTypeFixes(C.U64, 8 * n);
    AllocSpec(st.mem, 8 * n);
    AlignMask(st.mem.bump);
    var base := AlignUp(st.mem.bump);
    if !Overruns(st.mem, 8 * n) {
      C.ToTypeFixes(C.U64, base);
    }
  }

  /** The finished cell is the new value. */
  lemma Built(fr: Frame, env: Env, st: C.State, d: Val, es: seq<Value>, raws: seq<int>, f: C.Flow)
    requires FrameOk(fr) && Related(fr, env, st) && Typed(fr.types, d.id, d.ty) && d.ty.TSeq? && d.ty.len == |es|
    requires Raws(es, d.ty.elem, raws, st.mem)
    requires Building(st, f, fr.names[d.id], WidthFor(d.ty.elem), AlignUp(st.mem.bump), |es|, raws)
    ensures Simulates(fr, d, Yields(SeqV(es)), 8 * |es|, env, st, f)
  {
    hide Pow2;
    var base := AlignUp(st.mem.bump);
    AlignSlots(st.mem.bump, |es|);
    LaidSlots(es, d.ty.elem, raws, base, st.mem, f.st.mem);
    assert Rep(SeqV(es), d.ty, base, f.st.mem);
    BindDest(fr, env, st, d, SeqV(es), f.st);
  }

  // ---------- Copying whole cells ----------

  lemma EvalLane(vars: C.Locals, x: string, base: int, lane: nat)
    requires Holds(vars, x, C.U64, base) && 0 <= base <= C.ARENA_BYTES && lane <= MAX_SEQUENCE_BOUND
    ensures C.Eval(LaneAddress(x, lane), vars) == C.Ok(C.CValue(C.U64, base + 8 * lane))
  {
    hide C.Eval, Wrap;
    EvalVar(vars, x, C.U64, base);
    EvalLit(vars, lane * 8, C.SuffixU);
    AddU64(vars, C.Var(x), NumU(lane * 8), C.CValue(C.U64, base), C.CValue(C.U32, lane * 8));
  }

  lemma RunStore(w: C.Width, at: C.Expr, e: C.Expr, a: int, v: C.CValue, depth: nat, st: C.State)
    requires C.Eval(at, st.vars) == C.Ok(C.CValue(C.U64, a)) && 0 <= a < TWO_64
    requires C.Eval(e, st.vars) == C.Ok(v) && C.ToType(C.SlotType(w), v.n) == v.n && v.n >= 0
    ensures C.Run([C.Store(w, at, e)], depth, st) == C.Next(st.(mem := C.SlotStore(st.mem, w, a, v.n)))
  {
    hide Wrap, C.SlotStore;
    C.ToTypeFixes(C.U64, a);
    RunOne(C.Store(w, at, e), depth, st);
  }

  lemma RunCopySlot(w: C.Width, to: C.Expr, from: C.Expr, a: int, b: int, depth: nat, st: C.State)
    requires C.Eval(to, st.vars) == C.Ok(C.CValue(C.U64, a)) && 0 <= a < TWO_64
    requires C.Eval(from, st.vars) == C.Ok(C.CValue(C.U64, b)) && InArena(w, b)
    requires !st.mem.failed
    ensures C.Run([C.CopySlot(w, to, from)], depth, st)
         == C.Next(st.(mem := C.SlotStore(st.mem, w, a, C.SlotAt(st.mem, w, b))))
  {
    hide Wrap, C.SlotStore, C.SlotAt;
    C.ToTypeFixes(C.U64, a);
    C.ToTypeFixes(C.U64, b);
    RunOne(C.CopySlot(w, to, from), depth, st);
  }

  /** The unrolled copy of a whole sequence, from any lane on. */
  lemma {:induction false} RunLanes(d: string, s: string, w: SlotWidth, base: int, sbase: int, src: seq<int>, k: nat, st0: C.State, depth: nat, st: C.State)
    requires k <= |src| <= MAX_SEQUENCE_BOUND && d != s && IsValueName(s)
    requires Laid(st0.mem, CWidth(w), sbase, src) && AllWords(CWidth(w), src) && sbase + 8 * |src| <= st0.mem.bump
    requires Holds(st0.vars, s, C.U64, sbase)
    requires Building(st0, C.Next(st), d, CWidth(w), base, |src|, src[..k])
    ensures Building(st0, C.Run(CopyLanes(d, s, w, k, |src|), depth, st), d, CWidth(w), base, |src|, src)
    decreases |src| - k
  {
    hide C.Eval, C.Run, Wrap, Pow2, C.SlotStore, C.SlotAt;
    if k == |src| {
      assert src[..k] == src;
      RunNone(depth, st);
    } else {
      var lane := C.CopySlot(CWidth(w), LaneAddress(d, k), LaneAddress(s, k));
      EvalLane(st.vars, d, base, k);
      EvalLane(st.vars, s, sbase, k);
      SlotKept(st0.mem, st.mem, CWidth(w), sbase + 8 * k);
      RunCopySlot(CWidth(w), LaneAddress(d, k), LaneAddress(s, k), base + 8 * k, sbase + 8 * k, depth, st);
      FillNext(st0.mem, st.mem, CWidth(w), base, |src|, src[..k], src[k]);
      assert src[..k] + [src[k]] == src[..k + 1];
      var next := st.(mem := C.SlotStore(st.mem, CWidth(w), base + 8 * k, src[k]));
      RunLanes(d, s, w, base, sbase, src, k + 1, st0, depth, next);
      RunCons(lane, CopyLanes(d, s, w, k + 1, |src|), depth, st);
    }
  }

  // ---------- Replacement ----------

  lemma AfterExhaustion(ss: seq<C.Stmt>, d: string, depth: nat, st: C.State)
    requires Tame(ss, d) && Exhausted(st.mem)
    ensures Exhausted(C.FlowMemory(C.Run(ss, depth, st)))
  {
    TameRun(ss, d, depth, st);
  }

  /** A value's cell as the word a slot store writes. */
  function RawOf(e: Ty, c: int): int { C.ToType(C.SlotType(WidthFor(e)), c) }

  lemma RawsUpdate(es: seq<Value>, e: Ty, raws: seq<int>, m: C.Memory, i: nat, v: Value, c: int)
    requires Raws(es, e, raws, m) && i < |es| && Rep(v, e, c, m) && Valid(m)
    ensures Raws(es[i := v], e, raws[i := RawOf(e, c)], m)
  {
    hide Pow2, Wrap;
    RepFits(v, e, c, m);
    SlotRoundTrip(e, c);
  }

  /** An operand's word, read in a later state that only wrote `d`. */
  lemma EvalStored(fr: Frame, env: Env, st: C.State, id: Id, e: Ty, later: C.Locals, d: string)
    requires FrameOk(fr) && Related(fr, env, st) && id in env && Typed(fr.types, id, e)
    requires SameElsewhere(st.vars, later, d) && fr.names[id] != d
    ensures NameOf(fr.names, id) == fr.names[id]
    ensures C.Eval(C.Cast(C.SlotType(WidthFor(e)), C.Var(fr.names[id])), later)
         == C.Ok(C.CValue(C.SlotType(WidthFor(e)), RawOf(e, Cell(fr, id, st))))
    ensures Rep(env[id], e, Cell(fr, id, st), st.mem)
    ensures 0 <= RawOf(e, Cell(fr, id, st)) < Pow2(8 * C.SlotBytes(WidthFor(e)))
  {
    hide Pow2, Wrap, C.Eval;
    OperandHolds(fr, env, st, id);
    var c := Cell(fr, id, st);
    EvalVar(later, fr.names[id], CTypeOf(e), c);
    EvalCast(later, C.SlotType(WidthFor(e)), C.Var(fr.names[id]), C.CValue(CTypeOf(e), c));
    SlotRoundTrip(e, c);
  }

  lemma EvalIndexLater(fr: Frame, env: Env, st: C.State, id: Id, later: C.Locals, d: string)
    requires FrameOk(fr) && Related(fr, env, st) && id in env && Typed(fr.types, id, U64_TYPE)
    requires SameElsewhere(st.vars, later, d) && id in fr.names && fr.names[id] != d
    ensures IsInt(env, id) && C.Eval(AsU64(fr.names[id]), later) == C.Ok(C.CValue(C.U64, env[id].n))
  {
    IndexOperand(fr, env, st, id);
    EvalAsU64(st.vars, fr.names[id]);
    EvalAsU64(later, fr.names[id]);
  }

  /** Everything after the guard of a replacement. */
  function ReplaceRest(d: string, s: string, index: string, x: string, n: nat, w: SlotWidth): seq<C.Stmt> {
    [C.Alloc(d, NumU(n * 8))] + (CopyLanes(d, s, w, 0, n) + [ReplaceStore(d, index, x, w)])
  }

  function ReplaceStore(d: string, index: string, x: string, w: SlotWidth): C.Stmt {
    C.Store(CWidth(w), SlotAddress(C.Var(d), index), C.Cast(C.SlotType(CWidth(w)), C.Var(x)))
  }

  lemma StoreInto(fr: Frame, inst: Inst, env: Env, st: C.State, raws: seq<int>, base: int, depth: nat, mid: C.State)
    requires FrameOk(fr) && Related(fr, env, st) && inst.SequenceReplace? && inst.dest.ty.TSeq?
    requires Typed(fr.types, inst.dest.id, inst.dest.ty) && inst.width == SlotWidthOf(inst.dest.ty.elem)
    requires Typed(fr.types, inst.index, U64_TYPE) && Typed(fr.types, inst.element, inst.dest.ty.elem)
    requires inst.index in env && inst.element in env && inst.dest.id != inst.index && inst.dest.id != inst.element
    requires Building(st, C.Next(mid), fr.names[inst.dest.id], CWidth(inst.width), base, |raws|, raws) && |raws| <= MAX_SEQUENCE_BOUND
    requires IsInt(env, inst.index) && 0 <= env[inst.index].n < |raws|
    ensures Building(st, C.Run([ReplaceStore(X(fr, inst.dest.id), X(fr, inst.index), X(fr, inst.element), inst.width)], depth, mid),
                     fr.names[inst.dest.id], CWidth(inst.width), base, |raws|,
                     raws[env[inst.index].n := RawOf(inst.dest.ty.elem, Carried(fr, inst.element, st))])
  {
    hide Pow2, Wrap, C.Eval, C.Run, C.SlotStore, C.SlotAt, ToBytes, SlotAddress;
    var d, e, i := fr.names[inst.dest.id], inst.dest.ty.elem, env[inst.index].n;
    DestName(fr, st, inst.dest);
    EvalStored(fr, env, st, inst.element, e, mid.vars, d);
    IndexOperand(fr, env, st, inst.index);
    EvalIndexLater(fr, env, st, inst.index, mid.vars, d);
    EvalVar(mid.vars, d, C.U64, base);
    EvalSlotAddress(mid.vars, C.Var(d), X(fr, inst.index), base, i);
    var raw := RawOf(e, Cell(fr, inst.element, st));
    Idempotent(C.SlotType(WidthFor(e)), Cell(fr, inst.element, st));
    RunStore(CWidth(inst.width), SlotAddress(C.Var(d), X(fr, inst.index)), C.Cast(C.SlotType(CWidth(inst.width)), C.Var(X(fr, inst.element))),
             base + 8 * i, C.CValue(C.SlotType(WidthFor(e)), raw), depth, mid);
    FillUpdate(st.mem, mid.mem, CWidth(inst.width), base, |raws|, raws, i, raw);
  }

  /** The operand's cell, where it has one. */
  function Carried(fr: Frame, id: Id, st: C.State): int {
    if id in fr.names && fr.names[id] in st.vars.values then st.vars.values[fr.names[id]] else 0
  }

  lemma TameTail(d: string, s: string, index: string, x: string, n: nat, w: SlotWidth)
    ensures Tame(CopyLanes(d, s, w, 0, n) + [ReplaceStore(d, index, x, w)], d)
  {
    TameLanes(d, s, w, 0, n);
    TameFew([ReplaceStore(d, index, x, w)], d);
    TameAppend(CopyLanes(d, s, w, 0, n), [ReplaceStore(d, index, x, w)], d);
  }

  lemma ReplaceBody(m: Module, fr: Frame, inst: Inst, env: Env, st: C.State, depth: nat)
    requires Ready(m, fr, inst, env, st) && inst.SequenceReplace? && inst.dest.id !in Uses(inst)
    requires IsSeq(env, inst.source) && IsInt(env, inst.index) && inst.element in env
    requires 0 <= env[inst.index].n < inst.length == |env[inst.source].elems|
    ensures Simulates(fr, inst.dest, Yields(SeqV(env[inst.source].elems[env[inst.index].n := env[inst.element]])), 8 * inst.length, env, st,
                      C.Run(ReplaceRest(X(fr, inst.dest.id), X(fr, inst.source), X(fr, inst.index), X(fr, inst.element), inst.length, inst.width), depth, st))
  {
    hide Pow2, Wrap, C.Eval, C.Run, C.SlotStore, C.SlotAt, ToBytes, Evaluate, CopyLanes, ReplaceStore, Tame;
    var d, e, n, i := inst.dest, inst.dest.ty.elem, inst.length, env[inst.index].n;
    var x, s, w := fr.names[d.id], X(fr, inst.source), CWidth(inst.width);
    assert Uses(inst)[0] == inst.source && Uses(inst)[1] == inst.index && Uses(inst)[2] == inst.element;
    DestName(fr, st, d);
    SequenceOperand(fr, env, st, inst.source, e, Exact(n));
    OperandHolds(fr, env, st, inst.element);
    var es, sbase := env[inst.source].elems, Cell(fr, inst.source, st);
    RawsOf(es, e, sbase, st.mem);
    var raws := RawSlots(st.mem, w, sbase, n);
    EvalLit(st.vars, n * 8, C.SuffixU);
    RunAlloc(x, NumU(n * 8), C.U32, w, n, depth, st);
    var f0 := C.Run([C.Alloc(x, NumU(n * 8))], depth, st);
    var lanes, last := CopyLanes(x, s, inst.width, 0, n), ReplaceStore(x, X(fr, inst.index), X(fr, inst.element), inst.width);
    RunCons(C.Alloc(x, NumU(n * 8)), lanes + [last], depth, st);
    if Overruns(st.mem, 8 * n) {
      TameTail(x, s, X(fr, inst.index), X(fr, inst.element), n, inst.width);
      AfterExhaustion(lanes + [last], x, depth, f0.st);
    } else {
      var base := AlignUp(st.mem.bump);
      assert raws[..0] == [];
      RunLanes(x, s, inst.width, base, sbase, raws, 0, st, depth, f0.st);
      RunAppend(lanes, [last], depth, f0.st);
      var f1 := C.Run(lanes, depth, f0.st);
      StoreInto(fr, inst, env, st, raws, base, depth, f1.st);
      RawsUpdate(es, e, raws, st.mem, i, env[inst.element], Cell(fr, inst.element, st));
      Built(fr, env, st, d, es[i := env[inst.element]], raws[i := RawOf(e, Cell(fr, inst.element, st))],
            C.Run([last], depth, f1.st));
    }
  }

  lemma SimReplace(m: Module, fr: Frame, inst: Inst, env: Env, st: C.State, depth: nat)
    requires Ready(m, fr, inst, env, st) && inst.SequenceReplace? && InEnvelope(inst, env) && inst.dest.id !in Uses(inst)
    ensures Simulates(fr, inst.dest, Evaluate(inst, env), BytesOf(inst), env, st, C.Run(InstCode(fr.names, inst), depth, st))
  {
    hide Pow2, Wrap, C.Eval, C.Run, ReplaceRest;
    var e, n := inst.dest.ty.elem, inst.length;
    assert Uses(inst)[0] == inst.source && Uses(inst)[1] == inst.index && Uses(inst)[2] == inst.element;
    SequenceOperand(fr, env, st, inst.source, e, Exact(n));
    IndexOperand(fr, env, st, inst.index);
    var i, y := env[inst.index].n, X(fr, inst.index);
    var rest := ReplaceRest(X(fr, inst.dest.id), X(fr, inst.source), y, X(fr, inst.element), n, inst.width);
    if i < n {
      ReplaceBody(m, fr, inst, env, st, depth);
    }
    ReplaceSplit(fr.names, inst);
    if inst.evidence.RuntimeChecked? {
      EvalLit(st.vars, n, C.SuffixULL);
      RunIndexGuard(y, NumULL(n), i, n, depth, st);
      RunGuarded(IndexGuard(y, NumULL(n)), rest, i >= n, depth, st);
    }
  }

  lemma ReplaceSplit(names: Names, inst: Inst)
    requires inst.SequenceReplace?
    ensures var rest := ReplaceRest(NameOf(names, inst.dest.id), NameOf(names, inst.source), NameOf(names, inst.index),
                                    NameOf(names, inst.element), inst.length, inst.width);
            InstCode(names, inst) ==
              if inst.evidence.RuntimeChecked? then [IndexGuard(NameOf(names, inst.index), NumULL(inst.length))] + rest else rest
  {
  }

  // ---------- Construction ----------

  /** The statements for one source instruction, after lowering and flattening. */
  function LoweredCode(names: Names, inst: Inst): seq<C.Stmt> { InstsCode(names, Flatten([Lower(inst)])) }

  function InputRaws(fr: Frame, inputs: seq<Id>, e: Ty, st: C.State): (r: seq<int>)
    ensures |r| == |inputs|
  {
    seq(|inputs|, i requires 0 <= i < |inputs| => RawOf(e, Carried(fr, inputs[i], st)))
  }

  lemma InputRawsOk(fr: Frame, env: Env, st: C.State, inputs: seq<Id>, e: Ty)
    requires FrameOk(fr) && Related(fr, env, st) && AllIn(inputs, env)
    requires forall i | 0 <= i < |inputs| :: Typed(fr.types, inputs[i], e)
    ensures Raws(Lookup(inputs, env), e, InputRaws(fr, inputs, e, st), st.mem)
  {
    hide Pow2, Wrap, C.Eval;
    var es, raws := Lookup(inputs, env), InputRaws(fr, inputs, e, st);
    forall i | 0 <= i < |inputs|
      ensures 0 <= raws[i] < Pow2(8 * C.SlotBytes(WidthFor(e))) && Rep(es[i], e, C.ToType(CTypeOf(e), raws[i]), st.mem)
    {
      OperandHolds(fr, env, st, inputs[i]);
      SlotRoundTrip(e, Cell(fr, inputs[i], st));
    }
  }

  lemma EvalOffset(vars: C.Locals, x: string, base: int, k: nat)
    requires Holds(vars, x, C.U64, base) && 0 <= base <= C.ARENA_BYTES && k <= MAX_SEQUENCE_BOUND
    ensures C.Eval(C.Bin(C.Add, C.Var(x), Num(k * 8)), vars) == C.Ok(C.CValue(C.U64, base + 8 * k))
  {
    hide C.Eval, Wrap;
    EvalVar(vars, x, C.U64, base);
    EvalLit(vars, k * 8, C.NoSuffix);
    AddU64(vars, C.Var(x), Num(k * 8), C.CValue(C.U64, base), C.CValue(C.I32, k * 8));
  }

  /** The store of the `k`-th input. */
  lemma RunInput(fr: Frame, env: Env, st0: C.State, d: Val, inputs: seq<Id>, k: nat, base: int, depth: nat, st: C.State)
    requires FrameOk(fr) && Related(fr, env, st0) && AllIn(inputs, env) && Typed(fr.types, d.id, d.ty) && d.ty.TSeq?
    requires k < |inputs| <= MAX_SEQUENCE_BOUND && Typed(fr.types, inputs[k], d.ty.elem) && inputs[k] != d.id
    requires Building(st0, C.Next(st), fr.names[d.id], WidthFor(d.ty.elem), base, |inputs|, InputRaws(fr, inputs, d.ty.elem, st0)[..k])
    ensures Building(st0, C.Run(InstCode(fr.names, CellStore(d.id, k * 8, SlotWidthOf(d.ty.elem), inputs[k])), depth, st),
                     fr.names[d.id], WidthFor(d.ty.elem), base, |inputs|, InputRaws(fr, inputs, d.ty.elem, st0)[..k + 1])
  {
    hide Pow2, Wrap, C.Eval, C.Run, C.SlotStore, C.SlotAt, ToBytes;
    var e, raws, x := d.ty.elem, InputRaws(fr, inputs, d.ty.elem, st0), fr.names[d.id];
    DestName(fr, st0, d);
    EvalStored(fr, env, st0, inputs[k], e, st.vars, x);
    EvalOffset(st.vars, x, base, k);
    Idempotent(C.SlotType(WidthFor(e)), Cell(fr, inputs[k], st0));
    RunStore(WidthFor(e), C.Bin(C.Add, C.Var(x), Num(k * 8)), C.Cast(C.SlotType(WidthFor(e)), C.Var(X(fr, inputs[k]))),
             base + 8 * k, C.CValue(C.SlotType(WidthFor(e)), raws[k]), depth, st);
    FillNext(st0.mem, st.mem, WidthFor(e), base, |inputs|, raws[..k], raws[k]);
    assert raws[..k] + [raws[k]] == raws[..k + 1];
  }

  lemma {:induction false} RunInputs(fr: Frame, env: Env, st0: C.State, d: Val, inputs: seq<Id>, k: nat, base: int, depth: nat, st: C.State)
    requires FrameOk(fr) && Related(fr, env, st0) && AllIn(inputs, env) && Typed(fr.types, d.id, d.ty) && d.ty.TSeq?
    requires k <= |inputs| <= MAX_SEQUENCE_BOUND
    requires forall i | 0 <= i < |inputs| :: Typed(fr.types, inputs[i], d.ty.elem) && inputs[i] != d.id
    requires Building(st0, C.Next(st), fr.names[d.id], WidthFor(d.ty.elem), base, |inputs|, InputRaws(fr, inputs, d.ty.elem, st0)[..k])
    ensures Building(st0, C.Run(InstsCode(fr.names, LowerStores(d.id, inputs, SlotWidthOf(d.ty.elem), k)), depth, st),
                     fr.names[d.id], WidthFor(d.ty.elem), base, |inputs|, InputRaws(fr, inputs, d.ty.elem, st0))
    decreases |inputs| - k
  {
    hide Pow2, Wrap, C.Eval, C.Run, Filling, InstCode;
    var raws, stores := InputRaws(fr, inputs, d.ty.elem, st0), LowerStores(d.id, inputs, SlotWidthOf(d.ty.elem), k);
    if k == |inputs| {
      assert raws[..k] == raws;
      RunNone(depth, st);
    } else {
      RunInput(fr, env, st0, d, inputs, k, base, depth, st);
      var first := InstCode(fr.names, CellStore(d.id, k * 8, SlotWidthOf(d.ty.elem), inputs[k]));
      RunInputs(fr, env, st0, d, inputs, k + 1, base, depth, C.Run(first, depth, st).st);
      assert stores[1..] == LowerStores(d.id, inputs, SlotWidthOf(d.ty.elem), k + 1);
      RunAppend(first, InstsCode(fr.names, stores[1..]), depth, st);
    }
  }

  lemma {:induction false} StoresPlain(names: Names, cell: Id, inputs: seq<Id>, w: SlotWidth, k: nat, d: string)
    requires k <= |inputs|
    ensures Flatten(LowerStores(cell, inputs, w, k)) == LowerStores(cell, inputs, w, k)
    ensures Tame(InstsCode(names, LowerStores(cell, inputs, w, k)), d)
    decreases |inputs| - k
  {
    if k < |inputs| {
      var stores := LowerStores(cell, inputs, w, k);
      StoresPlain(names, cell, inputs, w, k + 1, d);
      assert stores[1..] == LowerStores(cell, inputs, w, k + 1);
      TameFew(InstCode(names, stores[0]), d);
      TameAppend(InstCode(names, stores[0]), InstsCode(names, stores[1..]), d);
    }
  }

  lemma ConstructCode(names: Names, inst: Inst)
    requires inst.SequenceConstruct? && inst.dest.ty.TSeq?
    ensures LoweredCode(names, inst)
         == [C.Alloc(NameOf(names, inst.dest.id), Num(|inst.inputs| * 8))]
            + InstsCode(names, LowerStores(inst.dest.id, inst.inputs, SlotWidthOf(inst.dest.ty.elem), 0))
    ensures Tame(InstsCode(names, LowerStores(inst.dest.id, inst.inputs, SlotWidthOf(inst.dest.ty.elem), 0)), NameOf(names, inst.dest.id))
  {
    var d, stores := inst.dest, LowerStores(inst.dest.id, inst.inputs, SlotWidthOf(inst.dest.ty.elem), 0);
    var alloc := CellAlloc(d, |inst.inputs| * 8);
    StoresPlain(names, d.id, inst.inputs, SlotWidthOf(d.ty.elem), 0, NameOf(names, d.id));
    assert ([alloc] + stores)[1..] == stores;
    assert Flatten([alloc] + stores) == [alloc] + stores;
    FlattenOne(Lower(inst));
    assert InstsCode(names, [alloc] + stores) == InstCode(names, alloc) + InstsCode(names, stores);
  }

  lemma FlattenOne(inst: Inst)
    ensures Flatten([inst]) == if inst.Group? then Flatten(inst.insts) else [inst]
  {
    assert [inst][1..] == [];
  }

  /** Construction fills the next aligned cell with the words of its inputs. */
  lemma ConstructBuilds(m: Module, fr: Frame, inst: Inst, env: Env, st: C.State, depth: nat)
    requires Ready(m, fr, inst, env, st) && inst.SequenceConstruct? && inst.dest.id !in Uses(inst)
    ensures inst.dest.id in fr.names
    ensures var f, d := C.Run(LoweredCode(fr.names, inst), depth, st), inst.dest;
            if Overruns(st.mem, BytesOf(inst)) then Exhausted(C.FlowMemory(f))
            else Building(st, f, fr.names[d.id], WidthFor(d.ty.elem), AlignUp(st.mem.bump), |inst.inputs|, InputRaws(fr, inst.inputs, d.ty.elem, st))
  {
    hide Pow2, Wrap, C.Eval, C.Run, InstsCode, LowerStores, LoweredCode;
    var d, e, inputs := inst.dest, inst.dest.ty.elem, inst.inputs;
    forall i | 0 <= i < |inputs|
      ensures inputs[i] in env && inputs[i] != d.id
    {
      assert Uses(inst)[i] == inputs[i];
    }
    DestName(fr, st, d);
    var x, w, n := fr.names[d.id], WidthFor(e), |inputs|;
    EvalLit(st.vars, n * 8, C.NoSuffix);
    RunAlloc(x, Num(n * 8), C.I32, w, n, depth, st);
    ConstructCode(fr.names, inst);
    var alloc, stores := C.Alloc(x, Num(n * 8)), InstsCode(fr.names, LowerStores(d.id, inputs, SlotWidthOf(e), 0));
    var f0 := C.Run([alloc], depth, st);
    RunCons(alloc, stores, depth, st);
    if Overruns(st.mem, 8 * n) {
      AfterExhaustion(stores, x, depth, f0.st);
    } else {
      assert InputRaws(fr, inputs, e, st)[..0] == [];
      RunInputs(fr, env, st, d, inputs, 0, AlignUp(st.mem.bump), depth, f0.st);
    }
  }

  lemma SimConstruct(m: Module, fr: Frame, inst: Inst, env: Env, st: C.State, depth: nat)
    requires Ready(m, fr, inst, env, st) && inst.SequenceConstruct? && inst.dest.id !in Uses(inst)
    ensures Simulates(fr, inst.dest, Evaluate(inst, env), BytesOf(inst), env, st, C.Run(LoweredCode(fr.names, inst), depth, st))
  {
    hide Pow2, Wrap, C.Eval, C.Run, LoweredCode, Filling;
    var d, e, inputs := inst.dest, inst.dest.ty.elem, inst.inputs;
    forall i | 0 <= i < |inputs|
      ensures inputs[i] in env
    {
      assert Uses(inst)[i] == inputs[i];
    }
    ConstructBuilds(m, fr, inst, env, st, depth);
    if !Overruns(st.mem, BytesOf(inst)) {
      InputRawsOk(fr, env, st, inputs, e);
      Built(fr, env, st, d, Lookup(inputs, env), InputRaws(fr, inputs, e, st), C.Run(LoweredCode(fr.names, inst), depth, st));
    }
  }
}
