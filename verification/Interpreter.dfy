/** Whole runs of the reference executor: blocks with simultaneously bound
    parameters, and calls under a depth budget. */
module Interpreter {
  import opened Mncs
  import opened Emit
  import opened Envelope

  /** `Invalid` is an unavailable or mistyped value, an unknown block or function;
      `Running` means the step count ran out first. */
  datatype Outcome = Returned(v: Value) | Failed | DepthExhausted | Invalid | Running

  /** Two observations go along with a run. `exact`: every instruction so far was
      inside its envelope. `used`: the arena bytes that the sequences built so far need. */
  datatype Result = Result(outcome: Outcome, exact: bool, used: nat)

  datatype Progress = Done(env: Env, exact: bool, used: nat) | Stopped(outcome: Outcome, exact: bool, used: nat)

  /** A run that comes after a part with these observations. */
  function Following(exact: bool, used: nat, r: Result): Result { Result(r.outcome, exact && r.exact, used + r.used) }

  function Continuing(exact: bool, used: nat, pr: Progress): Progress {
    match pr
    case Done(env, more, also) => Done(env, exact && more, used + also)
    case Stopped(o, more, also) => Stopped(o, exact && more, used + also)
  }

  /** Bind parameters to values that were read beforehand. */
  function BindAll(env: Env, params: seq<Val>, vals: seq<Value>): Env
    requires |params| == |vals|
    decreases |params|
  {
    if params == [] then env else BindAll(env[params[0].id := vals[0]], params[1..], vals[1..])
  }

  datatype Landing = Nowhere | At(index: nat, env: Env)

  /** A jump: all arguments are read before any parameter is bound. */
  function Transfer(f: Function, env: Env, target: Id, args: seq<Id>): Landing {
    var k := FindBlock(f.blocks, target);
    if k.None? || k.value >= |f.blocks| then Nowhere
    else
      var params := f.blocks[k.value].params;
      if |params| != |args| || !AllIn(args, env) then Nowhere
      else At(k.value, BindAll(env, params, Lookup(args, env)))
  }

  /** Where a terminator goes, or the outcome it ends with. */
  datatype Onward = Ends(outcome: Outcome) | GoesTo(index: nat, env: Env)

  function Land(l: Landing): Onward { if l.At? then GoesTo(l.index, l.env) else Ends(Invalid) }

  function Terminate(f: Function, term: Term, env: Env): Onward {
    match term
    case Return(v) => if v in env then Ends(Returned(env[v])) else Ends(Invalid)
    case Jump(t, args) => Land(Transfer(f, env, t, args))
    case Branch(c, t, targs, e, eargs) =>
      if !IsBool(env, c) then Ends(Invalid)
      else if env[c].b then Land(Transfer(f, env, t, targs))
      else Land(Transfer(f, env, e, eargs))
    case Fail => Ends(Failed)
  }

  function RunFunction(m: Module, f: Function, args: seq<Value>, depth: nat, limit: nat, fuel: nat): Result
    decreases fuel, 1
  {
    if depth > limit then Result(DepthExhausted, true, 0)
    else if |args| != |f.params| || f.blocks == [] then Result(Invalid, true, 0)
    else RunBlock(m, f, 0, BindAll(map[], f.params, args), depth, limit, fuel)
  }

  function RunBlock(m: Module, f: Function, k: nat, env: Env, depth: nat, limit: nat, fuel: nat): Result
    decreases fuel, 0
  {
    if fuel == 0 then Result(Running, true, 0)
    else if k >= |f.blocks| then Result(Invalid, true, 0)
    else
      match RunInsts(m, f.blocks[k].insts, env, depth, limit, fuel - 1)
      case Stopped(o, exact, used) => Result(o, exact, used)
      case Done(env', exact, used) =>
        match Terminate(f, f.blocks[k].term, env')
        case Ends(o) => Result(o, exact, used)
        case GoesTo(next, env'') =>
          Following(exact, used, RunBlock(m, f, next, env'', depth, limit, fuel - 1))
  }

  /** One instruction. */
  function RunInst(m: Module, inst: Inst, env: Env, depth: nat, limit: nat, fuel: nat): Progress
    decreases fuel, 2
  {
    if inst.Call? then
      if inst.callee !in m || !AllIn(inst.args, env) then Stopped(Invalid, true, 0)
      else
        var r := RunFunction(m, m[inst.callee], Lookup(inst.args, env), depth + 1, limit, fuel);
        if r.outcome.Returned? then Done(env[inst.dest.id := r.outcome.v], r.exact, r.used) else Stopped(r.outcome, r.exact, r.used)
    else
      match Evaluate(inst, env)
      case Yields(v) => Done(if Dest(inst).Some? then env[inst.dest.id := v] else env, InEnvelope(inst, env), BytesOf(inst))
      case Trap => Stopped(Failed, InEnvelope(inst, env), 0)
      case Bad => Stopped(Invalid, InEnvelope(inst, env), 0)
  }

  function RunInsts(m: Module, insts: seq<Inst>, env: Env, depth: nat, limit: nat, fuel: nat): Progress
    decreases fuel, 3, |insts|
  {
    if insts == [] then Done(env, true, 0)
    else
      match RunInst(m, insts[0], env, depth, limit, fuel)
      case Stopped(o, exact, used) => Stopped(o, exact, used)
      case Done(env', exact, used) =>
        Continuing(exact, used, RunInsts(m, insts[1..], env', depth, limit, fuel))
  }
}
