/** What a request is prepared as, condition by condition, and the fuel its run gets:
    the entry depth baked into the driver is the one the main results speak of. */
module Requests {
  import opened Options
  import opened Mncs
  import opened Emit
  import opened Symbols
  import opened Session
  import opened Interpreter
  import opened Validation
  import opened Represent
  import opened Simulation
  import opened Refinement
  import C = CLang

  // ---------- Admission ----------

  predicate Matches(row: Instantiation, req: Request) {
    row.module_ == req.module_ && row.function_ == req.function_ && row.spellings == req.typeArguments
  }

  /** The entry a request stands for: the function itself, or with type arguments the
      first instantiation compiled for them. */
  ghost predicate StandsFor(a: Artifact, req: Request, m: string, f: string) {
    if req.typeArguments == [] then m == req.module_ && f == req.function_
    else
      exists k :: 0 <= k < |a.generics| && Matches(a.generics[k], req)
        && (forall j | 0 <= j < k :: !Matches(a.generics[j], req))
        && a.generics[k].entryModule == m && a.generics[k].entryFunction == f
  }

  /** The contract under the qualified key, or else under the plain name. */
  predicate HasContract(a: Artifact, m: string, f: string, c: Contract) {
    || (m + "::" + f in a.contracts && a.contracts[m + "::" + f] == c)
    || (m + "::" + f !in a.contracts && f in a.contracts && a.contracts[f] == c)
  }

  predicate NoContract(a: Artifact, m: string, f: string) { m + "::" + f !in a.contracts && f !in a.contracts }

  /** `s` is the plain name with the prefix, once. */
  predicate Prefixed(s: string, f: string) {
    |s| >= 5 && s[..5] == "mncs_" && (s == f || (s[5..] == f && (|f| < 5 || f[..5] != "mncs_")))
  }

  /** The exported symbol: the qualified one, or else the plain one. */
  ghost predicate HasExport(a: Artifact, m: string, f: string, s: string) {
    var qualified := "mncs_" + Mangle(m) + "__" + Mangle(f);
    && s in a.exports
    && (s == qualified || (qualified !in a.exports && Prefixed(s, f)))
  }

  /** No budget starts at depth 0; a budget of 1 to 1024 leaves exactly that much. */
  predicate Seeds(budget: Option<nat>, depth: nat) {
    match budget
    case None => depth == 0
    case Some(b) => 1 <= b <= 1024 && depth + b == 1024
  }

  /** The driver and the arguments that go with entry `m`, `f`. */
  ghost predicate PreparedAs<Exe(!new)>(a: Artifact, t: Toolchain<Exe>, req: Request, p: Prepared, m: string, f: string, c: Contract) {
    && StandsFor(a, req, m, f) && HasContract(a, m, f, c)
    && |req.arguments| == |c.inputs|
    && HasExport(a, m, f, p.driver.entry)
    && Seeds(req.budget, p.driver.depth)
    && p.driver.inputs == c.inputs
    && (if c.outputs == [] then p.driver.output == None else p.driver.output == Some(c.outputs[0]))
    && t.callFile(req.arguments, c) == Ok(p.call)
    && (p.call.Some? ==> p.argv == [])
    && (p.call.None? ==> t.argv(req.arguments) == Ok(p.argv))
    && p.key == m + "::" + f + "#depth" + Decimal(p.driver.depth)
  }

  lemma {:induction false} FindMeans(rows: seq<Instantiation>, req: Request) returns (k: nat)
    ensures var r := FindInstantiation(rows, req);
            && (r.Some? ==> k < |rows| && r.value == rows[k] && Matches(rows[k], req) && forall j | 0 <= j < k :: !Matches(rows[j], req))
            && (r.None? ==> forall j | 0 <= j < |rows| :: !Matches(rows[j], req))
  {
    k := 0;
    if rows != [] && !Matches(rows[0], req) {
      k := FindMeans(rows[1..], req);
      assert forall j | 0 < j < |rows| :: rows[j] == rows[1..][j - 1];
      k := k + 1;
    }
  }

  lemma EntryMeans(a: Artifact, req: Request)
    ensures var e := ResolveEntry(a, req);
            && (e.Ok? ==> forall m, f :: StandsFor(a, req, m, f) <==> e.value == (m, f))
            && (e.Err? ==> e.status == InvalidRequest && forall m, f :: !StandsFor(a, req, m, f))
  {
    if req.typeArguments != [] {
      var k := FindMeans(a.generics, req);
    }
  }

  lemma ExportMeans(a: Artifact, m: string, f: string)
    ensures EntryExport(a, m, f).Some? ==> forall s :: HasExport(a, m, f, s) <==> EntryExport(a, m, f).value == s
    ensures EntryExport(a, m, f).None? ==> forall s :: !HasExport(a, m, f, s)
  {
    hide Mangle;
    forall s
      ensures Prefixed(s, f) <==> s == ShortSymbol(f)
    {
      if "mncs_" <= f {
        assert f[..5] == "mncs_";
      } else {
        assert ("mncs_" + f)[..5] == "mncs_" && ("mncs_" + f)[5..] == f;
        if Prefixed(s, f) {
          assert s == s[..5] + s[5..];
        }
      }
    }
  }

  lemma SeedMeans(budget: Option<nat>)
    ensures DepthSeed(budget).Ok? ==> forall d: nat :: Seeds(budget, d) <==> d == DepthSeed(budget).value
    ensures DepthSeed(budget).Err? ==> DepthSeed(budget).status == InvalidRequest && forall d: nat :: !Seeds(budget, d)
  {
  }

  /** Preparation succeeds with `p` exactly when every condition holds of it. */
  lemma PrepareMeans<Exe(!new)>(a: Artifact, t: Toolchain<Exe>, req: Request, p: Prepared)
    ensures Prepare(a, t, req) == Ok(p) <==> exists m, f, c :: PreparedAs(a, t, req, p, m, f, c)
  {
    hide ResolveEntry, EntryExport, DepthSeed, HasExport, StandsFor, Seeds;
    var e := ResolveEntry(a, req);
    EntryMeans(a, req);
    SeedMeans(req.budget);
    if e.Ok? {
      var (m, f) := e.value;
      ExportMeans(a, m, f);
      if Prepare(a, t, req) == Ok(p) {
        assert PreparedAs(a, t, req, p, m, f, EntryContract(a, m, f).value);
      }
    }
  }

  /** A request without an entry or a contract is invalid. */
  lemma NoEntryMeans<Exe(!new)>(a: Artifact, t: Toolchain<Exe>, req: Request)
    requires forall m, f | StandsFor(a, req, m, f) :: NoContract(a, m, f)
    ensures Prepare(a, t, req).Err? && Prepare(a, t, req).status == InvalidRequest
  {
    hide StandsFor;
    EntryMeans(a, req);
  }

  /** How a request with both is classified: by the first condition that fails. */
  lemma RefusalMeans<Exe(!new)>(a: Artifact, t: Toolchain<Exe>, req: Request, m: string, f: string, c: Contract)
    requires StandsFor(a, req, m, f) && HasContract(a, m, f, c)
    ensures var p := Prepare(a, t, req);
            if |req.arguments| != |c.inputs| then p.Err? && p.status == InvalidRequest
            else if forall s :: !HasExport(a, m, f, s) then p.Err? && p.status == Unsupported
            else if (forall d: nat :: !Seeds(req.budget, d)) || t.callFile(req.arguments, c).Err? then p.Err? && p.status == InvalidRequest
            else if t.callFile(req.arguments, c).value.None? && t.argv(req.arguments).Err? then p.Err? && p.status == Unsupported
            else p.Ok?
  {
    hide ResolveEntry, EntryExport, DepthSeed, HasExport, StandsFor, Seeds;
    EntryMeans(a, req);
    SeedMeans(req.budget);
    ExportMeans(a, m, f);
    assert ResolveEntry(a, req) == Ok((m, f)) && EntryContract(a, m, f) == Some(c);
    if EntryExport(a, m, f).Some? {
      assert HasExport(a, m, f, EntryExport(a, m, f).value);
    }
    if DepthSeed(req.budget).Ok? {
      assert Seeds(req.budget, DepthSeed(req.budget).value);
    }
  }

  /** What a prepared request is answered with. */
  lemma AnswerMeans<Exe(!new)>(a: Artifact, t: Toolchain<Exe>, req: Request)
    ensures !a.identityOk ==> OneShot(a, t, req).Err? && OneShot(a, t, req).status == InvalidRequest
    ensures a.identityOk && !t.available ==> OneShot(a, t, req).Err? && OneShot(a, t, req).status == Unsupported
    ensures a.identityOk && t.available ==>
              && (Prepare(a, t, req).Err? ==> OneShot(a, t, req) == Err(Prepare(a, t, req).status, Prepare(a, t, req).reason))
              && forall p | Prepare(a, t, req) == Ok(p) ::
                   match t.compile(a.source, p.driver)
                   case Ok(exe) => OneShot(a, t, req) == t.run(exe, p.argv, p.call, p.driver.output)
                   case Err(status, reason) => OneShot(a, t, req) == Err(status, reason)
  {
  }

  // ---------- Fuel ----------

  /** The call depth budget of a run: what the request asks for, or all of it. */
  function FuelOf(budget: Option<nat>): nat { if budget.Some? then budget.value else 1024 }

  /** Started at the driver's depth, a compiled entry has the request's fuel. */
  lemma DriverFuel<Exe(!new)>(a: Artifact, t: Toolchain<Exe>, req: Request, m: Module, n: string, cells: seq<int>, mem: C.Memory, fuel: nat)
    requires Prepare(a, t, req).Ok? && n in m
    ensures 1 <= FuelOf(req.budget) <= MAX_CALL_DEPTH
    ensures C.Activate(ModuleCode(m), CodeOf(m, n), cells, Prepare(a, t, req).value.driver.depth, mem, fuel)
         == Compiled(m, n, cells, FuelOf(req.budget), mem, fuel)
  {
    hide C.Activate, ModuleCode, CodeOf;
    PreparedDriver(a, t, req);
    SeedMeans(req.budget);
  }

  /** What a run started by the driver reports is what the reference executor returns
      under the request's own budget. */
  lemma SessionRefines<Exe(!new)>(a: Artifact, t: Toolchain<Exe>, req: Request, m: Module, n: string, args: seq<Value>, cells: seq<int>, mem: C.Memory, fuel: nat)
    requires Prepare(a, t, req).Ok? && Refinement.Request(m, n, args, cells, FuelOf(req.budget), mem)
    ensures var r := RunFunction(m, m[n], args, 0, FuelOf(req.budget), fuel);
            var flow := C.Activate(ModuleCode(m), CodeOf(m, n), cells, Prepare(a, t, req).value.driver.depth, mem, fuel);
            r.exact && !Overruns(mem, r.used) ==> Corresponds(r.outcome, m[n].result, flow)
  {
    hide C.Activate, ModuleCode, CodeOf, RunFunction, Prepare, Overruns, Corresponds, ModuleOk;
    DriverFuel(a, t, req, m, n, cells, mem, fuel);
    GeneratedRefines(m, n, args, cells, FuelOf(req.budget), mem, fuel);
  }
}
