/** Block arguments: the generator assigns parameters one after another, which is
    the reference executor's simultaneous binding exactly for ordered transfers. */
module Transfers {
  import opened Words
  import opened Mncs
  import opened Emit
  import opened Naming
  import opened IntegerLowering
  import opened Envelope
  import opened Relation
  import opened ViewSimulation
  import opened Interpreter
  import opened Validation
  import C = CLang
  import opened Execution

  /** Each argument is read after the parameters before it are overwritten. */
  function BindInOrder(env: Env, params: seq<Val>, args: seq<Id>): Env
    requires |params| == |args| && AllIn(args, env)
    decreases |params|
  {
    if params == [] then env
    else
      var next := env[params[0].id := env[args[0]]];
      assert AllIn(args[1..], next) by {
        forall i | 0 <= i < |args[1..]|
          ensures args[1..][i] in next
        {
          assert args[1..][i] == args[i + 1];
        }
      }
      BindInOrder(next, params[1..], args[1..])
  }

  lemma AllInKept(args: seq<Id>, env: Env, id: Id, v: Value)
    requires AllIn(args, env)
    ensures AllIn(args, env[id := v]) && (args != [] ==> AllIn(args[1..], env[id := v]))
  {
    if args != [] {
      forall i | 0 <= i < |args[1..]|
        ensures args[1..][i] in env[id := v]
      {
        assert args[1..][i] == args[i + 1];
      }
    }
  }

  lemma OrderedTail(params: seq<Val>, args: seq<Id>)
    requires Ordered(params, args) && |params| == |args| && params != []
    ensures Ordered(params[1..], args[1..])
  {
    forall i, j | 0 <= i < j < |args[1..]| && j < |params[1..]| && args[1..][j] == params[1..][i].id
      ensures args[1..][i] == params[1..][i].id
    {
      assert args[1..][j] == args[j + 1] && params[1..][i] == params[i + 1] && args[1..][i] == args[i + 1];
    }
  }

  /** Ordered transfers read what they would have read at once. */
  lemma {:induction false} OrderedBinds(env: Env, params: seq<Val>, args: seq<Id>)
    requires |params| == |args| && AllIn(args, env) && Ordered(params, args)
    ensures BindInOrder(env, params, args) == BindAll(env, params, Lookup(args, env))
    decreases |params|
  {
    if params != [] {
      var next := env[params[0].id := env[args[0]]];
      AllInKept(args, env, params[0].id, env[args[0]]);
      OrderedTail(params, args);
      OrderedBinds(next, params[1..], args[1..]);
      var vals, later := Lookup(args, env), Lookup(args[1..], next);
      forall j | 0 <= j < |args[1..]|
        ensures later[j] == vals[1..][j]
      {
        assert args[1..][j] == args[j + 1];
        if args[j + 1] == params[0].id {
          assert args[0] == params[0].id;
        }
      }
      assert later == vals[1..];
    }
  }

  // ---------- Only ordered transfers ----------

  /** Transfers before `n` overwrite nothing that argument `n` reads. */
  predicate OrderedAt(params: seq<Val>, args: seq<Id>, n: nat)
    requires |params| == |args| && n < |args|
  {
    forall i | 0 <= i < n && args[n] == params[i].id :: args[i] == params[i].id
  }

  /** The environment part-way through a transfer. */
  function BindSome(env: Env, params: seq<Val>, args: seq<Id>, n: nat): (r: Env)
    requires n <= |params| == |args| && AllIn(args, env)
    ensures forall i | i in env :: i in r
  {
    if n == 0 then env
    else
      var r := BindSome(env, params, args, n - 1);
      r[params[n - 1].id := r[args[n - 1]]]
  }

  lemma {:induction false} BindInOrderSome(env: Env, params: seq<Val>, args: seq<Id>, n: nat)
    requires n <= |params| == |args| && AllIn(args, env)
    ensures AllIn(args[n..], BindSome(env, params, args, n))
    ensures BindInOrder(env, params, args) == BindInOrder(BindSome(env, params, args, n), params[n..], args[n..])
  {
    var r := BindSome(env, params, args, n);
    assert forall i | 0 <= i < |args[n..]| :: args[n..][i] == args[i + n];
    if n == 0 {
      assert params[0..] == params && args[0..] == args;
    } else {
      BindInOrderSome(env, params, args, n - 1);
      assert params[n - 1..][1..] == params[n..] && args[n - 1..][1..] == args[n..];
      assert args[n - 1..][0] == args[n - 1] && params[n - 1..][0] == params[n - 1];
    }
  }

  /** With distinct parameters, each keeps what its own assignment gave it. */
  lemma {:induction false} BindSomeKeeps(env: Env, params: seq<Val>, args: seq<Id>, k: nat, n: nat)
    requires k < n <= |params| == |args| && AllIn(args, env) && Distinct(IdsOf(params))
    ensures params[k].id in BindSome(env, params, args, n)
    ensures BindSome(env, params, args, n)[params[k].id] == BindSome(env, params, args, k)[args[k]]
  {
    if n > k + 1 {
      BindSomeKeeps(env, params, args, k, n - 1);
      assert IdsOf(params)[k] != IdsOf(params)[n - 1];
    }
  }

  /** Before any out-of-order read, an argument still has its first value. */
  lemma {:induction false} StillFirst(env: Env, params: seq<Val>, args: seq<Id>, n: nat, id: Id)
    requires n <= |params| == |args| && AllIn(args, env) && id in env
    requires forall i | 0 <= i < n && id == params[i].id :: args[i] == id
    ensures BindSome(env, params, args, n)[id] == env[id]
  {
    if n > 0 {
      StillFirst(env, params, args, n - 1, id);
    }
  }

  lemma {:induction false} BindAllGives(env: Env, params: seq<Val>, vals: seq<Value>, k: nat)
    requires k < |params| == |vals| && Distinct(IdsOf(params))
    ensures params[k].id in BindAll(env, params, vals) && BindAll(env, params, vals)[params[k].id] == vals[k]
    decreases |params|
  {
    var next := env[params[0].id := vals[0]];
    DistinctTail(params);
    if k == 0 {
      BindAllOthers(next, params[1..], vals[1..], params[0].id);
    } else {
      BindAllGives(next, params[1..], vals[1..], k - 1);
    }
  }

  lemma DistinctTail(params: seq<Val>)
    requires params != [] && Distinct(IdsOf(params))
    ensures Distinct(IdsOf(params[1..])) && forall i | 0 <= i < |params[1..]| :: params[1..][i].id != params[0].id
  {
    forall i, j | 0 <= i < j < |params[1..]|
      ensures IdsOf(params[1..])[i] != IdsOf(params[1..])[j]
    {
      assert IdsOf(params)[i + 1] != IdsOf(params)[j + 1];
    }
    forall i | 0 <= i < |params[1..]|
      ensures params[1..][i].id != params[0].id
    {
      assert IdsOf(params)[0] != IdsOf(params)[i + 1];
    }
  }

  lemma {:induction false} BindAllOthers(env: Env, params: seq<Val>, vals: seq<Value>, id: Id)
    requires |params| == |vals| && forall i | 0 <= i < |params| :: params[i].id != id
    ensures id in env <==> id in BindAll(env, params, vals)
    ensures id in env ==> BindAll(env, params, vals)[id] == env[id]
    decreases |params|
  {
    if params != [] {
      BindAllOthers(env[params[0].id := vals[0]], params[1..], vals[1..], id);
    }
  }

  /** An argument that is a parameter has the type of the parameter it is passed to. */
  predicate Wired(params: seq<Val>, args: seq<Id>)
    requires |params| == |args|
  {
    forall i, j | 0 <= i < |params| && 0 <= j < |args| && args[j] == params[i].id :: params[j].ty == params[i].ty
  }

  /** The least transfer position that an out-of-order read makes wrong. */
  lemma {:induction false} FirstDisorder(params: seq<Val>, args: seq<Id>, a: nat, b: nat) returns (i: nat, j: nat)
    requires |params| == |args| && a < b < |args| && args[b] == params[a].id && args[a] != params[a].id
    ensures i < j < |args| && args[j] == params[i].id && args[i] != params[i].id && OrderedAt(params, args, i)
    ensures Wired(params, args) ==> params[i].ty == params[a].ty
    decreases a
  {
    if OrderedAt(params, args, a) {
      i, j := a, b;
    } else {
      var c: nat :| c < a && args[a] == params[c].id && args[c] != params[c].id;
      i, j := FirstDisorder(params, args, c, a);
    }
  }

  /** An out-of-order read of a different value shows. */
  lemma DisorderAt(env: Env, params: seq<Val>, args: seq<Id>, i: nat, j: nat)
    requires i < j < |args| == |params| && Distinct(IdsOf(params)) && AllIn(args, env)
    requires args[j] == params[i].id && OrderedAt(params, args, i) && env[args[i]] != env[args[j]]
    ensures BindInOrder(env, params, args) != BindAll(env, params, Lookup(args, env))
  {
    var n := |params|;
    BindInOrderSome(env, params, args, n);
    assert params[n..] == [] && args[n..] == [];
    BindSomeKeeps(env, params, args, j, n);
    BindSomeKeeps(env, params, args, i, j);
    StillFirst(env, params, args, i, args[i]);
    BindAllGives(env, params, Lookup(args, env), j);
    assert BindInOrder(env, params, args)[params[j].id] == env[args[i]];
  }

  /** A transfer assigned in order is the simultaneous binding, in every
      environment, exactly when it is ordered. */
  lemma TransferExact(params: seq<Val>, args: seq<Id>)
    requires |params| == |args| && Distinct(IdsOf(params))
    ensures Ordered(params, args) <==>
      forall env: Env | AllIn(args, env) :: BindInOrder(env, params, args) == BindAll(env, params, Lookup(args, env))
  {
    if Ordered(params, args) {
      forall env: Env | AllIn(args, env)
        ensures BindInOrder(env, params, args) == BindAll(env, params, Lookup(args, env))
      {
        OrderedBinds(env, params, args);
      }
    } else {
      var a, b :| 0 <= a < b < |args| && args[b] == params[a].id && args[a] != params[a].id;
      var i, j := FirstDisorder(params, args, a, b);
      var env: Env := map k | k in args :: IntV(if k == args[j] then 1 else 0);
      DisorderAt(env, params, args, i, j);
    }
  }

  // ---------- Typed environments ----------

  /** Types with more than one value: all but sequences that hold nothing. */
  predicate TwoValued(ty: Ty) {
    match ty
    case TInt(_, _) => true
    case TBool => true
    case TSeq(e, n) => n > 0 && TwoValued(e)
    case TView(_, cap) => cap > 0
  }

  function SomeValue(ty: Ty): (v: Value)
    ensures HasType(v, ty)
  {
    match ty
    case TInt(_, _) => IntV(0)
    case TBool => BoolV(false)
    case TSeq(e, n) => SeqV(seq(n, _ => SomeValue(e)))
    case TView(_, _) => SeqV([])
  }

  function OtherValue(ty: Ty): (v: Value)
    requires TwoValued(ty)
    ensures HasType(v, ty) && v != SomeValue(ty)
  {
    match ty
    case TInt(_, _) => IntV(1)
    case TBool => BoolV(true)
    case TSeq(e, n) =>
      var es, fs := seq(n, _ => OtherValue(e)), seq(n, _ => SomeValue(e));
      assert es[0] != fs[0];
      SeqV(es)
    case TView(e, _) => SeqV([SomeValue(e)])
  }

  lemma {:induction false} OnlyValue(ty: Ty, v: Value, w: Value)
    requires !TwoValued(ty) && HasType(v, ty) && HasType(w, ty)
    ensures v == w
    decreases ty
  {
    match ty
    case TSeq(e, n) =>
      forall i | 0 <= i < n
        ensures v.elems[i] == w.elems[i]
      {
        OnlyValue(e, v.elems[i], w.elems[i]);
      }
      assert v.elems == w.elems;
    case TView(_, _) =>
      assert v.elems == w.elems;
  }

  ghost predicate KeepsTypes(types: Types, env: Env) { forall i | i in env :: i in types && HasType(env[i], types[i]) }

  predicate TransferTypes(types: Types, params: seq<Val>, args: seq<Id>) {
    |params| == |args| && forall i | 0 <= i < |args| :: Typed(types, params[i].id, params[i].ty) && Typed(types, args[i], params[i].ty)
  }

  /** Ordered, where the parameter's type has anything to lose. */
  predicate OrderedWhereItMatters(params: seq<Val>, args: seq<Id>) {
    forall i, j | 0 <= i < j < |args| && j < |params| && args[j] == params[i].id :: args[i] == params[i].id || !TwoValued(params[i].ty)
  }

  lemma {:induction false} TypedBinds(types: Types, env: Env, params: seq<Val>, args: seq<Id>)
    requires TransferTypes(types, params, args) && AllIn(args, env) && KeepsTypes(types, env) && OrderedWhereItMatters(params, args)
    ensures BindInOrder(env, params, args) == BindAll(env, params, Lookup(args, env))
    decreases |params|
  {
    hide HasType;
    if params != [] {
      var next := env[params[0].id := env[args[0]]];
      AllInKept(args, env, params[0].id, env[args[0]]);
      TypedTail(types, params, args);
      TypedBinds(types, next, params[1..], args[1..]);
      var vals, later := Lookup(args, env), Lookup(args[1..], next);
      forall j | 0 <= j < |args[1..]|
        ensures later[j] == vals[1..][j]
      {
        assert args[1..][j] == args[j + 1];
        if args[j + 1] == params[0].id && args[0] != params[0].id {
          OnlyValue(params[0].ty, env[args[0]], env[args[j + 1]]);
        }
      }
      assert later == vals[1..];
    }
  }

  lemma TypedTail(types: Types, params: seq<Val>, args: seq<Id>)
    requires TransferTypes(types, params, args) && params != [] && OrderedWhereItMatters(params, args)
    ensures TransferTypes(types, params[1..], args[1..]) && OrderedWhereItMatters(params[1..], args[1..])
  {
    forall i, j | 0 <= i < j < |args[1..]| && j < |params[1..]| && args[1..][j] == params[1..][i].id
      ensures args[1..][i] == params[1..][i].id || !TwoValued(params[1..][i].ty)
    {
      assert args[1..][j] == args[j + 1] && params[1..][i] == params[i + 1] && args[1..][i] == args[i + 1];
    }
  }

  /** The same in well-typed environments alone: there only parameters whose type
      has a single value may be read out of order. */
  lemma TypedTransferExact(types: Types, params: seq<Val>, args: seq<Id>)
    requires TransferTypes(types, params, args) && Distinct(IdsOf(params))
    ensures OrderedWhereItMatters(params, args) <==>
      forall env: Env | AllIn(args, env) && KeepsTypes(types, env) :: BindInOrder(env, params, args) == BindAll(env, params, Lookup(args, env))
  {
    hide BindInOrder, BindAll, OrderedWhereItMatters, KeepsTypes;
    if OrderedWhereItMatters(params, args) {
      forall env: Env | AllIn(args, env) && KeepsTypes(types, env)
        ensures BindInOrder(env, params, args) == BindAll(env, params, Lookup(args, env))
      {
        TypedBinds(types, env, params, args);
      }
    } else {
      var env := TypedDisorder(types, params, args);
    }
  }

  /** A well-typed environment that shows a transfer wrong. */
  lemma TypedDisorder(types: Types, params: seq<Val>, args: seq<Id>) returns (env: Env)
    requires TransferTypes(types, params, args) && Distinct(IdsOf(params)) && !OrderedWhereItMatters(params, args)
    ensures AllIn(args, env) && KeepsTypes(types, env) && BindInOrder(env, params, args) != BindAll(env, params, Lookup(args, env))
  {
    hide HasType, SomeValue, OtherValue, BindInOrder, BindAll;
    var a, b :| 0 <= a < b < |args| && args[b] == params[a].id && args[a] != params[a].id && TwoValued(params[a].ty);
    var i, j := FirstDisorder(params, args, a, b);
    var ty := params[i].ty;
    env := map k | k in args :: if k == args[j] then OtherValue(ty) else SomeValue(types[k]);
    assert KeepsTypes(types, env);
    DisorderAt(env, params, args, i, j);
  }

  // ---------- The emitted assignments ----------

  lemma {:induction false} RunTransfer(fr: Frame, env: Env, st: C.State, params: seq<Val>, args: seq<Id>, depth: nat)
    requires FrameOk(fr) && Related(fr, env, st) && |params| == |args| && AllIn(args, env)
    requires forall i | 0 <= i < |args| :: Typed(fr.types, args[i], params[i].ty) && Typed(fr.types, params[i].id, params[i].ty)
    ensures var f := C.Run(TransferCode(fr.names, params, args), depth, st);
            f.Next? && f.st.mem == st.mem && Related(fr, BindInOrder(env, params, args), f.st)
    decreases |params|
  {
    hide C.Eval, C.Run, Wrap;
    RunNone(depth, st);
    if params != [] {
      var next := env[params[0].id := env[args[0]]];
      AllInKept(args, env, params[0].id, env[args[0]]);
      var rest := TransferCode(fr.names, params[1..], args[1..]);
      forall i | 0 <= i < |args[1..]|
        ensures Typed(fr.types, args[1..][i], params[1..][i].ty) && Typed(fr.types, params[1..][i].id, params[1..][i].ty)
      {
        assert args[1..][i] == args[i + 1] && params[1..][i] == params[i + 1];
      }
      if params[0].id == args[0] {
        assert next == env;
        RunTransfer(fr, env, st, params[1..], args[1..], depth);
        assert [] + rest == rest;
      } else {
        var move := C.Assign(NameOf(fr.names, params[0].id), C.Var(NameOf(fr.names, args[0])));
        RunMove(fr, env, st, params[0], args[0], depth);
        RunTransfer(fr, next, C.Run([move], depth, st).st, params[1..], args[1..], depth);
        RunCons(move, rest, depth, st);
      }
    }
  }

  lemma RunMove(fr: Frame, env: Env, st: C.State, param: Val, arg: Id, depth: nat)
    requires FrameOk(fr) && Related(fr, env, st) && arg in env
    requires Typed(fr.types, arg, param.ty) && Typed(fr.types, param.id, param.ty)
    ensures var f := C.Run([C.Assign(NameOf(fr.names, param.id), C.Var(NameOf(fr.names, arg)))], depth, st);
            f.Next? && f.st.mem == st.mem && Related(fr, env[param.id := env[arg]], f.st)
  {
    hide C.Eval, C.Run, Wrap;
    DestName(fr, st, param);
    OperandHolds(fr, env, st, arg);
    var c := Cell(fr, arg, st);
    RunCopyVar(fr.names[param.id], fr.names[arg], CTypeOf(param.ty), c, depth, st);
    BindDest(fr, env, st, param, env[arg], C.Run([C.Assign(fr.names[param.id], C.Var(fr.names[arg]))], depth, st).st);
  }

  /** The emitted swap of two parameters loses one value: after `a = b; b = a;` both
      variables hold `b`'s, where the reference executor exchanges them. */
  lemma SwapLoses(fr: Frame, env: Env, st: C.State, a: Val, b: Val, depth: nat)
    requires FrameOk(fr) && Related(fr, env, st) && a.id != b.id && a.ty == b.ty
    requires a.id in env && b.id in env && Typed(fr.types, a.id, a.ty) && Typed(fr.types, b.id, b.ty)
    ensures var f := C.Run(TransferCode(fr.names, [a, b], [b.id, a.id]), depth, st);
            f.Next? && Related(fr, env[a.id := env[b.id]], f.st)
    ensures BindAll(env, [a, b], Lookup([b.id, a.id], env)) == env[a.id := env[b.id]][b.id := env[a.id]]
  {
    hide C.Run, FrameOk, Related;
    var params, args := [a, b], [b.id, a.id];
    assert params[1..] == [b] && args[1..] == [a.id] && [b][1..] == [] && [a.id][1..] == [];
    RunTransfer(fr, env, st, params, args, depth);
    var vals := Lookup(args, env);
    assert vals == [env[b.id], env[a.id]] && vals[1..] == [env[a.id]] && vals[1..][1..] == [];
    var next := env[a.id := env[b.id]];
    assert BindInOrder(next, [b], [a.id]) == next[b.id := next[a.id]];
    assert next[b.id := next[a.id]] == next;
    assert BindAll(next, [b], [env[a.id]]) == next[b.id := env[a.id]];
  }
}
