/** Entering a function: its frame, its parameters, and the values that each
    block can rely on. */
module Entry {
  import opened Words
  import opened Mncs
  import opened Emit
  import opened Naming
  import opened Represent
  import opened Envelope
  import opened Relation
  import opened Interpreter
  import opened Validation
  import opened Transfers
  import C = CLang

  // ---------- The frame ----------

  function FrameOf(f: Function): Frame { Frame(TypesOf(f), NamesOf(f)) }

  lemma {:induction false} TypesSound(vals: seq<Val>)
    ensures forall i :: i in TypesOfVals(vals) <==> exists v | v in vals :: v.id == i
    ensures Distinct(IdsOf(vals)) ==> forall v | v in vals :: Typed(TypesOfVals(vals), v.id, v.ty)
  {
    if vals != [] {
      var k := |vals| - 1;
      TypesSound(vals[..k]);
      assert vals == vals[..k] + [vals[k]];
      if Distinct(IdsOf(vals)) {
        DistinctPrefix(vals);
      }
    }
  }

  lemma DistinctPrefix(vals: seq<Val>)
    requires vals != [] && Distinct(IdsOf(vals))
    ensures Distinct(IdsOf(vals[..|vals| - 1]))
    ensures forall v | v in vals[..|vals| - 1] :: v.id != vals[|vals| - 1].id
  {
    var k := |vals| - 1;
    assert IdsOf(vals[..k]) == IdsOf(vals)[..k];
    forall v | v in vals[..k]
      ensures v.id != vals[k].id
    {
      var j :| 0 <= j < k && vals[..k][j] == v;
      assert IdsOf(vals)[j] != IdsOf(vals)[k];
    }
  }

  lemma FrameSound(f: Function)
    requires Distinct(IdsOf(AllVals(f)))
    ensures FrameOk(FrameOf(f))
    ensures forall v | v in AllVals(f) :: Typed(TypesOf(f), v.id, v.ty) && v.id in NamesOf(f)
  {
    hide AllVals, NamesOf;
    NamesSound(f);
    TypesSound(AllVals(f));
  }

  lemma {:induction false} BlockInAll(bs: seq<Block>, k: nat)
    requires k < |bs|
    ensures forall v | v in BlockVals(bs[k]) :: v in BlocksVals(bs)
  {
    hide BlockVals;
    if k > 0 {
      BlockInAll(bs[1..], k - 1);
    }
  }

  lemma ParamsTyped(f: Function)
    requires Distinct(IdsOf(AllVals(f)))
    ensures forall p | p in f.params :: Typed(TypesOf(f), p.id, p.ty)
    ensures forall k, i | 0 <= k < |f.blocks| && 0 <= i < |f.blocks[k].params| ::
              Typed(TypesOf(f), f.blocks[k].params[i].id, f.blocks[k].params[i].ty)
  {
    FrameSound(f);
    forall k, i | 0 <= k < |f.blocks| && 0 <= i < |f.blocks[k].params|
      ensures Typed(TypesOf(f), f.blocks[k].params[i].id, f.blocks[k].params[i].ty)
    {
      BlockInAll(f.blocks, k);
      assert f.blocks[k].params[i] in BlockVals(f.blocks[k]);
    }
  }

  // ---------- Declarations ----------

  lemma {:induction false} DeclTypesAt(ds: seq<C.Decl>)
    requires Distinct(DeclNames(ds))
    ensures forall d | d in ds :: d.name in C.DeclTypes(ds) && C.DeclTypes(ds)[d.name] == d.ty
  {
    if ds != [] {
      var k := |ds| - 1;
      assert DeclNames(ds[..k]) == DeclNames(ds)[..k];
      DeclTypesAt(ds[..k]);
      forall d | d in ds[..k]
        ensures d.name != ds[k].name
      {
        var j :| 0 <= j < k && ds[..k][j] == d;
        assert DeclNames(ds)[j] != DeclNames(ds)[k];
      }
      assert ds == ds[..k] + [ds[k]];
    }
  }

  lemma {:induction false} BindParamsAt(ds: seq<C.Decl>, cells: seq<int>, i: nat)
    requires i < |ds| == |cells| && Distinct(DeclNames(ds))
    ensures ds[i].name in C.BindParams(ds, cells) && C.BindParams(ds, cells)[ds[i].name] == C.ToType(ds[i].ty, cells[i])
  {
    var k := |ds| - 1;
    if i < k {
      assert DeclNames(ds[..k]) == DeclNames(ds)[..k];
      BindParamsAt(ds[..k], cells[..k], i);
      assert DeclNames(ds)[i] != DeclNames(ds)[k];
    }
  }

  lemma DistinctParams(f: Function)
    requires Distinct(IdsOf(AllVals(f)))
    ensures Distinct(IdsOf(f.params)) && Distinct(IdsOf(BlocksVals(f.blocks)))
    ensures forall v | v in BlocksVals(f.blocks) :: v.id !in IdSet(f.params)
  {
    var n := |f.params|;
    assert IdsOf(f.params) == IdsOf(AllVals(f))[..n];
    assert IdsOf(BlocksVals(f.blocks)) == IdsOf(AllVals(f))[n..];
    forall v | v in BlocksVals(f.blocks)
      ensures v.id !in IdSet(f.params)
    {
      var j :| 0 <= j < |BlocksVals(f.blocks)| && BlocksVals(f.blocks)[j] == v;
      assert IdsOf(AllVals(f))[n + j] == v.id;
      forall i | 0 <= i < n
        ensures f.params[i].id != v.id
      {
        assert IdsOf(AllVals(f))[i] != IdsOf(AllVals(f))[n + j];
      }
    }
  }

  /** Every value's variable has its declaration, with its C type. */
  lemma FunctionDeclared(f: Function, hasArena: bool, values: map<string, int>)
    requires Distinct(IdsOf(AllVals(f)))
    ensures var c := FunctionCode(f, hasArena);
            && Distinct(DeclNames(c.params + c.decls))
            && Declared(FrameOf(f), C.Locals(C.DeclTypes(c.params + c.decls), values))
  {
    hide CasesFrom, Prologue;
    var names, c, ds := NamesOf(f), FunctionCode(f, hasArena), FunctionCode(f, hasArena).params + FunctionCode(f, hasArena).decls;
    DistinctParams(f);
    FunctionDeclares(f, hasArena);
    DeclarationsTyped(names, IdSet(f.params), BlocksVals(f.blocks));
    DeclTypesAt(ds);
    FrameSound(f);
    TypesSound(AllVals(f));
    forall i | i in TypesOf(f) && i in names
      ensures names[i] in C.DeclTypes(ds) && C.DeclTypes(ds)[names[i]] == CTypeOf(TypesOf(f)[i])
    {
      var v :| v in AllVals(f) && v.id == i;
      if v in f.params {
        var j :| 0 <= j < |f.params| && f.params[j] == v;
        assert c.params[j] == C.Decl(CTypeOf(v.ty), NameOf(names, v.id));
        assert c.params[j] in ds;
      } else {
        assert v in BlocksVals(f.blocks);
        assert C.Decl(CTypeOf(v.ty), NameOf(names, v.id)) in ds;
      }
    }
  }

  // ---------- Parameters ----------

  lemma {:induction false} BindAllKeys(env: Env, params: seq<Val>, vals: seq<Value>)
    requires |params| == |vals|
    ensures forall i :: i in BindAll(env, params, vals) <==> i in env || i in IdSet(params)
    decreases |params|
  {
    if params != [] {
      BindAllKeys(env[params[0].id := vals[0]], params[1..], vals[1..]);
      assert IdSet(params) == {params[0].id} + IdSet(params[1..]) by {
        forall i
          ensures i in IdSet(params) <==> i == params[0].id || i in IdSet(params[1..])
        {
          if i in IdSet(params) && i != params[0].id {
            var k :| 0 <= k < |params| && params[k].id == i;
            assert params[1..][k - 1].id == i;
          }
          if i in IdSet(params[1..]) {
            var k :| 0 <= k < |params[1..]| && params[1..][k].id == i;
            assert params[k + 1].id == i;
          }
        }
      }
    }
  }

  ghost predicate ArgsRep(args: seq<Value>, params: seq<Val>, cells: seq<int>, m: C.Memory) {
    && |args| == |params| == |cells|
    && forall i | 0 <= i < |args| :: Rep(args[i], params[i].ty, cells[i], m)
  }

  /** The variables of a fresh activation. */
  function EntryVars(f: Function, hasArena: bool, cells: seq<int>): C.Locals
    requires |cells| == |f.params|
  {
    var c := FunctionCode(f, hasArena);
    C.Locals(C.DeclTypes(c.params + c.decls), C.BindParams(c.params, cells))
  }

  lemma EntryCarries(f: Function, hasArena: bool, args: seq<Value>, cells: seq<int>, m: C.Memory, j: nat)
    requires Distinct(IdsOf(AllVals(f))) && ArgsRep(args, f.params, cells, m) && Valid(m) && j < |f.params|
    ensures f.params[j].id in BindAll(map[], f.params, args)
    ensures Carries(FrameOf(f), f.params[j].id, BindAll(map[], f.params, args)[f.params[j].id], C.State(EntryVars(f, hasArena, cells), m))
  {
    hide CasesFrom, Prologue, Declarations, Wrap, C.DeclTypes;
    FunctionDeclared(f, hasArena, map[]);
    FrameSound(f);
    ParamsTyped(f);
    DistinctParams(f);
    var ds := ParamDecls(NamesOf(f), f.params);
    assert DeclNames(ds) == DeclNames(ds + FunctionCode(f, hasArena).decls)[..|ds|];
    assert f.params[j] in AllVals(f);
    BindParamsAt(ds, cells, j);
    BindAllGives(map[], f.params, args, j);
    RepFits(args[j], f.params[j].ty, cells[j], m);
    C.ToTypeFixes(CTypeOf(f.params[j].ty), cells[j]);
  }

  lemma EntryRelated(f: Function, hasArena: bool, args: seq<Value>, cells: seq<int>, m: C.Memory)
    requires Distinct(IdsOf(AllVals(f))) && ArgsRep(args, f.params, cells, m) && Valid(m) && !m.failed
    ensures Related(FrameOf(f), BindAll(map[], f.params, args), C.State(EntryVars(f, hasArena, cells), m))
  {
    hide CasesFrom, Prologue, Declarations;
    var fr, st, env := FrameOf(f), C.State(EntryVars(f, hasArena, cells), m), BindAll(map[], f.params, args);
    FunctionDeclared(f, hasArena, st.vars.values);
    ParamsTyped(f);
    FrameSound(f);
    BindAllKeys(map[], f.params, args);
    forall i | i in env
      ensures Carries(fr, i, env[i], st)
    {
      var j :| 0 <= j < |f.params| && f.params[j].id == i;
      EntryCarries(f, hasArena, args, cells, m, j);
    }
  }
}
