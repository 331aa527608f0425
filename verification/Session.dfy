/** The stateful session and the one-shot path: the cache of compiled drivers is
    invisible exactly when its key determines the driver. */
module Session {
  import opened Options
  import opened Emit
  import opened Symbols

  // ---------- Artifacts and requests ----------

  datatype Result<+T> = Ok(value: T) | Err(status: Status, reason: string)

  datatype Status = InvalidRequest | Unsupported | Finished(code: int)

  /** A value contract, by its canonical spelling. */
  type ValueContract = string

  datatype Contract = Contract(inputs: seq<ValueContract>, outputs: seq<ValueContract>)

  datatype Instantiation = Instantiation(module_: string, function_: string, spellings: seq<string>, entryModule: string, entryFunction: string)

  datatype Artifact = Artifact(
    identityOk: bool,
    source: string,
    contracts: map<string, Contract>,
    exports: seq<string>,
    generics: seq<Instantiation>)

  datatype Request = Request(module_: string, function_: string, typeArguments: seq<string>, arguments: seq<string>, budget: Option<nat>)

  /** The driver source names its entry symbol and contracts and has the depth seed baked in. */
  datatype Driver = Driver(entry: string, inputs: seq<ValueContract>, output: Option<ValueContract>, depth: nat)

  /** What the environment provides, each a function of its inputs: argument
      encoding, compilation, and one run of an executable. */
  datatype Toolchain<!Exe> = Toolchain(
    available: bool,
    callFile: (seq<string>, Contract) -> Result<Option<string>>,
    argv: seq<string> -> Result<seq<string>>,
    compile: (string, Driver) -> Result<Exe>,
    run: (Exe, seq<string>, Option<string>, Option<ValueContract>) -> Result<string>)

  // ---------- Resolution ----------

  function FindInstantiation(rows: seq<Instantiation>, req: Request): Option<Instantiation> {
    if rows == [] then None
    else if rows[0].module_ == req.module_ && rows[0].function_ == req.function_ && rows[0].spellings == req.typeArguments then Some(rows[0])
    else FindInstantiation(rows[1..], req)
  }

  function ResolveEntry(a: Artifact, req: Request): Result<(string, string)> {
    if req.typeArguments == [] then Ok((req.module_, req.function_))
    else
      var row := FindInstantiation(a.generics, req);
      if row.Some? then Ok((row.value.entryModule, row.value.entryFunction)) else Err(InvalidRequest, "no compiled instantiation")
  }

  /** The qualified slot first, the short name second. */
  function EntryContract(a: Artifact, module_: string, function_: string): Option<Contract> {
    if EntryKey(module_, function_) in a.contracts then Some(a.contracts[EntryKey(module_, function_)])
    else if function_ in a.contracts then Some(a.contracts[function_])
    else None
  }

  /** `c_symbol`: a name that already carries the prefix keeps it. */
  function ShortSymbol(name: string): string { if "mncs_" <= name then name else "mncs_" + name }

  function EntryExport(a: Artifact, module_: string, function_: string): Option<string> {
    if QualifiedSymbol(module_, function_) in a.exports then Some(QualifiedSymbol(module_, function_))
    else if ShortSymbol(function_) in a.exports then Some(ShortSymbol(function_))
    else None
  }

  function DepthSeed(budget: Option<nat>): Result<nat> {
    match budget
    case None => Ok(0)
    case Some(b) =>
      if b == 0 then Err(InvalidRequest, "call_depth_budget must be at least 1 when present")
      else if b > MAX_CALL_DEPTH then Err(InvalidRequest, "call_depth_budget exceeds the cap")
      else var seed: nat := MAX_CALL_DEPTH - b; Ok(seed)
  }

  datatype Prepared = Prepared(key: string, driver: Driver, argv: seq<string>, call: Option<string>)

  /** Everything that happens before compilation, in order. */
  function Prepare<Exe>(a: Artifact, t: Toolchain<Exe>, req: Request): Result<Prepared> {
    var entry := ResolveEntry(a, req);
    if entry.Err? then Err(entry.status, entry.reason)
    else
      var (module_, function_) := entry.value;
      var contract := EntryContract(a, module_, function_);
      if contract.None? then Err(InvalidRequest, "no function value contract")
      else if |contract.value.inputs| != |req.arguments| then Err(InvalidRequest, "wrong number of arguments")
      else
        var symbol := EntryExport(a, module_, function_);
        if symbol.None? then Err(Unsupported, "entry is not realized")
        else
          var seed := DepthSeed(req.budget);
          if seed.Err? then Err(seed.status, seed.reason)
          else
            var outputs := contract.value.outputs;
            var driver := Driver(symbol.value, contract.value.inputs, if outputs == [] then None else Some(outputs[0]), seed.value);
            var call := t.callFile(req.arguments, contract.value);
            if call.Err? then Err(InvalidRequest, call.reason)
            else
              var argv := if call.value.Some? then Ok([]) else t.argv(req.arguments);
              if argv.Err? then Err(Unsupported, argv.reason)
              else Ok(Prepared(CacheKey(module_, function_, seed.value), driver, argv.value, call.value))
  }

  function Finish<Exe>(t: Toolchain<Exe>, exe: Exe, p: Prepared): Result<string> { t.run(exe, p.argv, p.call, p.driver.output) }

  /** `execute_c11`: compile the driver for this request alone. */
  function OneShot<Exe>(a: Artifact, t: Toolchain<Exe>, req: Request): Result<string> {
    if !a.identityOk then Err(InvalidRequest, "artifact identity")
    else if !t.available then Err(Unsupported, "unavailable toolchain")
    else
      var p := Prepare(a, t, req);
      if p.Err? then Err(p.status, p.reason)
      else
        var exe := t.compile(a.source, p.value.driver);
        if exe.Err? then Err(exe.status, exe.reason) else Finish(t, exe.value, p.value)
  }

  // ---------- The session ----------

  class StatefulSession<Exe(!new)> {
    const artifact: Artifact
    const tools: Toolchain<Exe>
    var executables: map<string, Exe>

    constructor (a: Artifact, t: Toolchain<Exe>)
      requires a.identityOk && t.available
      ensures artifact == a && tools == t && executables == map[]
    {
      artifact, tools, executables := a, t, map[];
    }

    /** Only a missing key compiles; a failed compilation is not remembered. */
    method Execute(req: Request) returns (r: Result<string>)
      modifies this`executables
      ensures (executables, r) == Step(artifact, tools, old(executables), req)
    {
      var p := Prepare(artifact, tools, req);
      if p.Err? {
        return Err(p.status, p.reason);
      }
      if p.value.key !in executables {
        var exe := tools.compile(artifact.source, p.value.driver);
        if exe.Err? {
          return Err(exe.status, exe.reason);
        }
        executables := executables[p.value.key := exe.value];
      }
      r := Finish(tools, executables[p.value.key], p.value);
    }

    /** Requests one after another, each through the cache the earlier ones left. */
    method ExecuteAll(reqs: seq<Request>) returns (rs: seq<Result<string>>)
      requires artifact.identityOk && tools.available && KeyDetermines(artifact, tools)
      requires Sound(artifact, tools, executables)
      modifies this`executables
      ensures Sound(artifact, tools, executables)
      ensures |rs| == |reqs| && forall i | 0 <= i < |reqs| :: rs[i] == OneShot(artifact, tools, reqs[i])
    {
      rs := [];
      for i := 0 to |reqs|
        invariant Sound(artifact, tools, executables)
        invariant |rs| == i && forall j | 0 <= j < i :: rs[j] == OneShot(artifact, tools, reqs[j])
      {
        StepAgrees(artifact, tools, executables, reqs[i]);
        var r := Execute(reqs[i]);
        rs := rs + [r];
      }
    }
  }

  function Step<Exe>(a: Artifact, t: Toolchain<Exe>, cache: map<string, Exe>, req: Request): (map<string, Exe>, Result<string>) {
    var p := Prepare(a, t, req);
    if p.Err? then (cache, Err(p.status, p.reason))
    else if p.value.key in cache then (cache, Finish(t, cache[p.value.key], p.value))
    else
      var exe := t.compile(a.source, p.value.driver);
      if exe.Err? then (cache, Err(exe.status, exe.reason))
      else (cache[p.value.key := exe.value], Finish(t, exe.value, p.value))
  }

  /** Requests that share a cache key share a driver. */
  ghost predicate KeyDetermines<Exe(!new)>(a: Artifact, t: Toolchain<Exe>) {
    forall x, y | Prepare(a, t, x).Ok? && Prepare(a, t, y).Ok? && Prepare(a, t, x).value.key == Prepare(a, t, y).value.key ::
      Prepare(a, t, x).value.driver == Prepare(a, t, y).value.driver
  }

  /** The cache invariant: an executable is what compiling its key's driver gives. */
  ghost predicate Sound<Exe(!new)>(a: Artifact, t: Toolchain<Exe>, cache: map<string, Exe>) {
    forall k, x | k in cache && Prepare(a, t, x).Ok? && Prepare(a, t, x).value.key == k ::
      t.compile(a.source, Prepare(a, t, x).value.driver) == Ok(cache[k])
  }

  /** One cached execution is the one-shot execution, and keeps the cache sound. */
  lemma StepAgrees<Exe(!new)>(a: Artifact, t: Toolchain<Exe>, cache: map<string, Exe>, req: Request)
    requires a.identityOk && t.available && KeyDetermines(a, t) && Sound(a, t, cache)
    ensures Step(a, t, cache, req).1 == OneShot(a, t, req)
    ensures Sound(a, t, Step(a, t, cache, req).0)
  {
    hide Prepare;
    var next := Step(a, t, cache, req).0;
    forall k, x | k in next && Prepare(a, t, x).Ok? && Prepare(a, t, x).value.key == k
      ensures t.compile(a.source, Prepare(a, t, x).value.driver) == Ok(next[k])
    {
      var p := Prepare(a, t, req);
      if k !in cache {
        assert p.Ok? && p.value.key == k;
        assert Prepare(a, t, x).value.driver == p.value.driver;
      }
    }
  }

  // ---------- When the key determines the driver ----------

  function RunAll<Exe>(a: Artifact, t: Toolchain<Exe>, cache: map<string, Exe>, reqs: seq<Request>): (rs: seq<Result<string>>)
    ensures |rs| == |reqs|
    decreases |reqs|
  {
    if reqs == [] then []
    else
      var (next, r) := Step(a, t, cache, reqs[0]);
      [r] + RunAll(a, t, next, reqs[1..])
  }

  ghost predicate Transparent<Exe(!new)>(a: Artifact, t: Toolchain<Exe>) {
    forall reqs: seq<Request>, i | 0 <= i < |reqs| :: RunAll(a, t, map[], reqs)[i] == OneShot(a, t, reqs[i])
  }

  lemma {:induction false} RunAllAgrees<Exe(!new)>(a: Artifact, t: Toolchain<Exe>, cache: map<string, Exe>, reqs: seq<Request>, i: nat)
    requires a.identityOk && t.available && KeyDetermines(a, t) && Sound(a, t, cache) && i < |reqs|
    ensures RunAll(a, t, cache, reqs)[i] == OneShot(a, t, reqs[i])
    decreases |reqs|
  {
    hide Prepare, Step, OneShot;
    StepAgrees(a, t, cache, reqs[0]);
    if i > 0 {
      RunAllAgrees(a, t, Step(a, t, cache, reqs[0]).0, reqs[1..], i - 1);
    }
  }

  /** A toolchain whose runs reveal the driver they were compiled from. */
  ghost predicate Telling<Exe(!new)>(a: Artifact, t: Toolchain<Exe>) {
    forall x, y | Prepare(a, t, x).Ok? && Prepare(a, t, y).Ok? ::
      var p, q := Prepare(a, t, x).value, Prepare(a, t, y).value;
      var e, f := t.compile(a.source, p.driver), t.compile(a.source, q.driver);
      e.Ok? && f.Ok? && (Finish(t, e.value, q) == Finish(t, f.value, q) ==> p.driver == q.driver)
  }

  /** For every toolchain, a key that determines the driver makes the session
      transparent over all request sequences; for a telling one, nothing less does. */
  lemma SessionTransparent<Exe(!new)>(a: Artifact, t: Toolchain<Exe>)
    requires a.identityOk && t.available
    ensures KeyDetermines(a, t) ==> Transparent(a, t)
    ensures Telling(a, t) ==> (Transparent(a, t) <==> KeyDetermines(a, t))
  {
    hide Prepare;
    if KeyDetermines(a, t) {
      forall reqs: seq<Request>, i | 0 <= i < |reqs|
        ensures RunAll(a, t, map[], reqs)[i] == OneShot(a, t, reqs[i])
      {
        RunAllAgrees(a, t, map[], reqs, i);
      }
    } else if Telling(a, t) {
      var x, y :| Prepare(a, t, x).Ok? && Prepare(a, t, y).Ok? && Prepare(a, t, x).value.key == Prepare(a, t, y).value.key
                  && Prepare(a, t, x).value.driver != Prepare(a, t, y).value.driver;
      SecondReuses(a, t, x, y);
      assert RunAll(a, t, map[], [x, y])[1] != OneShot(a, t, [x, y][1]);
    }
  }

  /** After `x`, a request `y` with the same key runs the executable made for `x`. */
  lemma SecondReuses<Exe(!new)>(a: Artifact, t: Toolchain<Exe>, x: Request, y: Request)
    requires a.identityOk && t.available && Telling(a, t) && Prepare(a, t, x).Ok? && Prepare(a, t, y).Ok?
    requires Prepare(a, t, x).value.key == Prepare(a, t, y).value.key
    requires Prepare(a, t, x).value.driver != Prepare(a, t, y).value.driver
    ensures RunAll(a, t, map[], [x, y])[1] != OneShot(a, t, y)
  {
    hide Prepare;
    var p, q := Prepare(a, t, x).value, Prepare(a, t, y).value;
    var e, f := t.compile(a.source, p.driver), t.compile(a.source, q.driver);
    assert [x, y][1..] == [y];
    var cache := Step(a, t, map[], x).0;
    assert RunAll(a, t, map[], [x, y]) == [Step(a, t, map[], x).1] + RunAll(a, t, cache, [y]);
    assert RunAll(a, t, cache, [y]) == [Step(a, t, cache, y).1] + RunAll(a, t, Step(a, t, cache, y).0, [y][1..]);
  }

  lemma {:induction false} MangleAppend(x: string, y: string)
    ensures Mangle(x + y) == Mangle(x) + Mangle(y)
  {
    if x == "" {
      assert x + y == y;
    } else {
      assert (x + y)[0] == x[0] && (x + y)[1..] == x[1..] + y;
      MangleAppend(x[1..], y);
    }
  }

  /** The contract key spells the native symbol, so it determines it even where
      it does not determine the module and the function. */
  lemma KeySpellsSymbol(namespace: string, name: string)
    ensures QualifiedSymbol(namespace, name) == "mncs_" + Mangle(EntryKey(namespace, name))
  {
    assert "::"[1..] == ":" && ":"[1..] == "";
    assert Mangle("::") == "__";
    MangleAppend(namespace + "::", name);
    MangleAppend(namespace, "::");
    assert "mncs_" + Mangle(namespace) + "__" + Mangle(name) == "mncs_" + (Mangle(namespace) + "__" + Mangle(name));
  }

  /** Resolved by qualified contract and qualified symbol, with no short-name fallback. */
  predicate Qualified(a: Artifact, module_: string, function_: string) {
    EntryKey(module_, function_) in a.contracts && QualifiedSymbol(module_, function_) in a.exports
  }

  /** Requests that resolve without the short-name fallback, or name a module
      without a colon, share a driver whenever they share a key. */
  lemma PlainEntriesDetermine<Exe(!new)>(a: Artifact, t: Toolchain<Exe>)
    requires forall req | Prepare(a, t, req).Ok? ::
      var (m, f) := ResolveEntry(a, req).value; Qualified(a, m, f) || NoColon(m)
    ensures KeyDetermines(a, t)
  {
    forall x, y | Prepare(a, t, x).Ok? && Prepare(a, t, y).Ok? && Prepare(a, t, x).value.key == Prepare(a, t, y).value.key
      ensures Prepare(a, t, x).value.driver == Prepare(a, t, y).value.driver
    {
      var (m, f) := ResolveEntry(a, x).value;
      var (n, g) := ResolveEntry(a, y).value;
      CacheKeySplits(m, f, DepthSeed(x.budget).value, n, g, DepthSeed(y.budget).value);
      KeySpellsSymbol(m, f);
      KeySpellsSymbol(n, g);
      if !Qualified(a, m, f) {
        EntryKeyInjective(m, f, n, g);
      }
    }
  }

  /** What an entry's driver is built from, whatever the seed. */
  function EntryDriver(a: Artifact, module_: string, function_: string): Option<Driver> {
    var contract, symbol := EntryContract(a, module_, function_), EntryExport(a, module_, function_);
    if contract.None? || symbol.None? then None
    else
      var outputs := contract.value.outputs;
      Some(Driver(symbol.value, contract.value.inputs, if outputs == [] then None else Some(outputs[0]), 0))
  }

  /** A toolchain that encodes all arguments. */
  ghost predicate Encodes<Exe(!new)>(t: Toolchain<Exe>) {
    && (forall args, c :: t.callFile(args, c) == Ok(None))
    && (forall args :: t.argv(args).Ok?)
  }

  /** Entries spelled alike are built alike. */
  ghost predicate SpellingDetermines(a: Artifact) {
    forall m, f, n, g | EntryKey(m, f) == EntryKey(n, g) && EntryDriver(a, m, f).Some? && EntryDriver(a, n, g).Some? ::
      EntryDriver(a, m, f) == EntryDriver(a, n, g)
  }

  lemma PreparedDriver<Exe(!new)>(a: Artifact, t: Toolchain<Exe>, req: Request)
    requires Prepare(a, t, req).Ok?
    ensures ResolveEntry(a, req).Ok? && DepthSeed(req.budget).Ok?
    ensures var (m, f), seed := ResolveEntry(a, req).value, DepthSeed(req.budget).value;
            && Prepare(a, t, req).value.key == CacheKey(m, f, seed)
            && EntryDriver(a, m, f).Some?
            && Prepare(a, t, req).value.driver == EntryDriver(a, m, f).value.(depth := seed)
  {
  }

  /** The request for a plain entry with as many empty arguments as it takes. */
  function PlainRequest(a: Artifact, module_: string, function_: string): Request
    requires EntryDriver(a, module_, function_).Some?
  {
    Request(module_, function_, [], seq(|EntryDriver(a, module_, function_).value.inputs|, _ => ""), None)
  }

  lemma PlainPrepares<Exe(!new)>(a: Artifact, t: Toolchain<Exe>, module_: string, function_: string)
    requires Encodes(t) && EntryDriver(a, module_, function_).Some?
    ensures var p := Prepare(a, t, PlainRequest(a, module_, function_));
            p.Ok? && p.value.key == CacheKey(module_, function_, 0) && p.value.driver == EntryDriver(a, module_, function_).value
  {
  }

  lemma SameKey(m: string, f: string, n: string, g: string)
    requires EntryKey(m, f) == EntryKey(n, g)
    ensures CacheKey(m, f, 0) == CacheKey(n, g, 0)
  {
  }

  /** The key determines the driver if and only if the artifact's own tables build
      alike whatever is spelled alike. */
  lemma KeyDeterminesExact<Exe(!new)>(a: Artifact, t: Toolchain<Exe>)
    ensures SpellingDetermines(a) ==> KeyDetermines(a, t)
    ensures Encodes(t) ==> (KeyDetermines(a, t) <==> SpellingDetermines(a))
  {
    hide Prepare, EntryDriver, ResolveEntry, DepthSeed, CacheKey, EntryKey;
    if SpellingDetermines(a) {
      forall x, y | Prepare(a, t, x).Ok? && Prepare(a, t, y).Ok? && Prepare(a, t, x).value.key == Prepare(a, t, y).value.key
        ensures Prepare(a, t, x).value.driver == Prepare(a, t, y).value.driver
      {
        PreparedDriver(a, t, x);
        PreparedDriver(a, t, y);
        var (m, f) := ResolveEntry(a, x).value;
        var (n, g) := ResolveEntry(a, y).value;
        CacheKeySplits(m, f, DepthSeed(x.budget).value, n, g, DepthSeed(y.budget).value);
      }
    }
    if Encodes(t) && KeyDetermines(a, t) {
      forall m, f, n, g | EntryKey(m, f) == EntryKey(n, g) && EntryDriver(a, m, f).Some? && EntryDriver(a, n, g).Some?
        ensures EntryDriver(a, m, f) == EntryDriver(a, n, g)
      {
        PlainPrepares(a, t, m, f);
        PlainPrepares(a, t, n, g);
        SameKey(m, f, n, g);
      }
    }
  }

  /** Where both fall back to short contracts, one key can stand for two drivers,
      which differ in the value they decode. */
  lemma FallbackCollides<Exe(!new)>(t: Toolchain<Exe>) returns (a: Artifact)
    requires Encodes(t)
    ensures a.identityOk && a.exports == [QualifiedSymbol("a_b", "c")] && !KeyDetermines(a, t)
  {
    a := Artifact(true, "", map["c" := Contract([], ["i32"]), "b::c" := Contract([], ["bool"])], [QualifiedSymbol("a_b", "c")], []);
    assert EntryKey("a::b", "c") == "a::b::c" && EntryKey("a", "b::c") == "a::b::c";
    KeySpellsSymbol("a::b", "c");
    KeySpellsSymbol("a", "b::c");
    SameSpelling();
    assert "i32"[0] != "bool"[0];
    assert "c" != "b::c" && "a::b::c" != "c" && "a::b::c" != "b::c";
    assert EntryDriver(a, "a::b", "c").Some? && EntryDriver(a, "a", "b::c").Some?;
    assert !SpellingDetermines(a);
    KeyDeterminesExact(a, t);
  }

  lemma SameSpelling()
    ensures QualifiedSymbol("a::b", "c") == QualifiedSymbol("a_b", "c")
  {
    assert Mangle("a::b") == "a" + ("_" + ("_" + ("b" + Mangle(""))));
    assert Mangle("a_b") == "a" + ("__" + ("b" + Mangle("")));
  }
}
