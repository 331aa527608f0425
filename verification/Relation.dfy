/** The relation between an SSA environment and a C activation, and what it means
    for emitted statements to simulate one instruction. */
module Relation {
  import opened Mncs
  import opened Emit
  import opened Naming
  import opened IntegerLowering
  import opened Represent
  import opened Envelope
  import C = CLang
  import opened Execution

  /** The types and the C names of one function's values. */
  datatype Frame = Frame(types: Types, names: Names)

  ghost predicate FrameOk(fr: Frame) {
    && Injective(fr.names)
    && (forall i | i in fr.types :: i in fr.names)
    && (forall i | i in fr.names :: IsValueName(fr.names[i]))
  }

  /** Every value's variable is declared with the C type of the value's type. */
  ghost predicate Declared(fr: Frame, vars: C.Locals) {
    forall i | i in fr.types && i in fr.names ::
      fr.names[i] in vars.types && vars.types[fr.names[i]] == CTypeOf(fr.types[i])
  }

  /** The variable for `id` holds a cell that stands for `v`. */
  ghost predicate Carries(fr: Frame, id: Id, v: Value, st: C.State) {
    && id in fr.types && id in fr.names
    && fr.names[id] in st.vars.values
    && Rep(v, fr.types[id], st.vars.values[fr.names[id]], st.mem)
  }

  ghost predicate Related(fr: Frame, env: Env, st: C.State) {
    && Valid(st.mem) && !st.mem.failed
    && Declared(fr, st.vars)
    && forall i | i in env :: Carries(fr, i, env[i], st)
  }

  function Cell(fr: Frame, id: Id, st: C.State): int
    requires id in fr.names && fr.names[id] in st.vars.values
  {
    st.vars.values[fr.names[id]]
  }

  /** The emitted statements do what the instruction does, and exhaust the arena
      exactly when the bytes it needs are not left. */
  ghost predicate Simulates(fr: Frame, d: Val, effect: Effect, bytes: nat, env: Env, st: C.State, f: C.Flow) {
    match effect
    case Yields(v) =>
      if Overruns(st.mem, bytes) then Exhausted(C.FlowMemory(f))
      else f.Next? && Related(fr, env[d.id := v], f.st) && Extends(st.mem, f.st.mem) && Took(st.mem, f.st.mem, bytes)
    case Trap => Trapped(st, f)
    case Bad => false
  }

  // ---------- Reading operands ----------

  /** An operand's variable, as the expression lemmas want it. */
  lemma OperandHolds(fr: Frame, env: Env, st: C.State, id: Id)
    requires FrameOk(fr) && Related(fr, env, st) && id in env
    ensures id in fr.types && id in fr.names && NameOf(fr.names, id) == fr.names[id] && IsValueName(fr.names[id])
    ensures Holds(st.vars, fr.names[id], CTypeOf(fr.types[id]), Cell(fr, id, st))
    ensures Rep(env[id], fr.types[id], Cell(fr, id, st), st.mem)
    ensures C.Fits(CTypeOf(fr.types[id]), Cell(fr, id, st))
  {
    assert Carries(fr, id, env[id], st);
    RepFits(env[id], fr.types[id], Cell(fr, id, st), st.mem);
  }

  lemma IntOperand(fr: Frame, env: Env, st: C.State, id: Id, b: IntWidth, s: bool)
    requires FrameOk(fr) && Related(fr, env, st) && id in env && Typed(fr.types, id, TInt(b, s))
    ensures IsInt(env, id) && InRange(env[id].n, b, s)
    ensures id in fr.names && NameOf(fr.names, id) == fr.names[id] && IsValueName(fr.names[id])
    ensures Holds(st.vars, fr.names[id], CellType(b), CellOf(env[id].n, b))
  {
    OperandHolds(fr, env, st, id);
  }

  lemma BoolOperand(fr: Frame, env: Env, st: C.State, id: Id)
    requires FrameOk(fr) && Related(fr, env, st) && id in env && Typed(fr.types, id, TBool)
    ensures IsBool(env, id)
    ensures id in fr.names && NameOf(fr.names, id) == fr.names[id] && IsValueName(fr.names[id])
    ensures Holds(st.vars, fr.names[id], C.I32, if env[id].b then 1 else 0)
  {
    OperandHolds(fr, env, st, id);
  }

  // ---------- Writing the destination ----------

  /** Writing one value's variable, with the arena at most extended, keeps the relation. */
  lemma BindDest(fr: Frame, env: Env, st: C.State, d: Val, v: Value, later: C.State)
    requires FrameOk(fr) && Related(fr, env, st) && Typed(fr.types, d.id, d.ty)
    requires Extends(st.mem, later.mem) && !later.mem.failed
    requires SameElsewhere(st.vars, later.vars, fr.names[d.id])
    requires fr.names[d.id] in later.vars.values
    requires Rep(v, d.ty, later.vars.values[fr.names[d.id]], later.mem)
    ensures Related(fr, env[d.id := v], later)
  {
    var more := env[d.id := v];
    forall i | i in more
      ensures Carries(fr, i, more[i], later)
    {
      if i != d.id {
        assert Carries(fr, i, env[i], st);
        assert fr.names[i] != fr.names[d.id];
        RepKept(env[i], fr.types[i], Cell(fr, i, st), st.mem, later.mem);
      }
    }
  }

  /** The common case: one assignment of the destination cell, memory untouched. */
  lemma Assigned(fr: Frame, env: Env, st: C.State, d: Val, v: Value, c: int, f: C.Flow)
    requires FrameOk(fr) && Related(fr, env, st) && Typed(fr.types, d.id, d.ty)
    requires Assigns(st, f, fr.names[d.id], c) && Rep(v, d.ty, c, st.mem)
    ensures Simulates(fr, d, Yields(v), 0, env, st, f)
  {
    NothingFits(st.mem);
    BindDest(fr, env, st, d, v, f.st);
  }

  lemma DestName(fr: Frame, st: C.State, d: Val)
    requires FrameOk(fr) && Declared(fr, st.vars) && Typed(fr.types, d.id, d.ty)
    ensures d.id in fr.names && NameOf(fr.names, d.id) == fr.names[d.id] && IsValueName(fr.names[d.id])
    ensures fr.names[d.id] in st.vars.types && st.vars.types[fr.names[d.id]] == CTypeOf(d.ty)
  {
  }
}
