/** The C variable names are well chosen: distinct values get distinct names,
    every name is a value name, and each variable is declared exactly once. */
module Naming {
  import opened Mncs
  import opened Emit
  import C = CLang

  // ---------- Decimal numerals ----------

  lemma {:induction false} DecimalInjective(a: nat, b: nat)
    requires Decimal(a) == Decimal(b)
    ensures a == b
    decreases a + b
  {
    var s, t := Decimal(a), Decimal(b);
    assert s[|s| - 1] == Digit(a % 10) && t[|t| - 1] == Digit(b % 10);
    assert a % 10 == b % 10;
    if a >= 10 {
      assert s[..|s| - 1] == Decimal(a / 10) && t[..|t| - 1] == Decimal(b / 10);
      DecimalInjective(a / 10, b / 10);
    }
  }

  lemma ValueNameInjective(a: nat, b: nat)
    requires ValueName(a) == ValueName(b)
    ensures a == b
  {
    assert ValueName(a)[1..] == Decimal(a) && ValueName(b)[1..] == Decimal(b);
    DecimalInjective(a, b);
  }

  predicate IsDigit(c: char) { '0' <= c <= '9' }

  /** The number a string of decimal digits stands for. */
  function NumberOf(s: string): int
    requires forall i | 0 <= i < |s| :: IsDigit(s[i])
  {
    if s == "" then 0 else 10 * NumberOf(s[..|s| - 1]) + (s[|s| - 1] as int - '0' as int)
  }

  /** The numeral stands for its number and has no leading zero. */
  lemma {:induction false} DecimalMeans(n: nat)
    ensures var s := Decimal(n);
            && (forall i | 0 <= i < |s| :: IsDigit(s[i]))
            && NumberOf(s) == n
            && |s| > 0 && (s[0] == '0' ==> n == 0)
  {
    var s := Decimal(n);
    if n >= 10 {
      DecimalMeans(n / 10);
      assert s[..|s| - 1] == Decimal(n / 10);
    } else {
      assert s[..0] == "" && NumberOf(s[..0]) == 0;
    }
  }

  // ---------- The name table ----------

  /** Every name is numbered below the table's size, and no two ids share one. */
  predicate Numbered(names: Names) {
    && (forall i | i in names :: exists k: nat :: k < |names| && names[i] == ValueName(k))
    && Injective(names)
  }

  predicate Injective(names: Names) { forall i, j | i in names && j in names && names[i] == names[j] :: i == j }

  lemma EnterNumbered(names: Names, id: Id)
    requires Numbered(names)
    ensures Numbered(Enter(names, id))
  {
    if id !in names {
      var more := Enter(names, id);
      assert |more| == |names| + 1;
      forall i | i in more
        ensures exists k: nat :: k < |more| && more[i] == ValueName(k)
      {
        if i == id {
          assert more[i] == ValueName(|names|);
        } else {
          var k: nat :| k < |names| && names[i] == ValueName(k);
          assert k < |more| && more[i] == ValueName(k);
        }
      }
      forall i | i in names
        ensures names[i] != ValueName(|names|)
      {
        var k: nat :| k < |names| && names[i] == ValueName(k);
        if names[i] == ValueName(|names|) {
          ValueNameInjective(k, |names|);
        }
      }
    }
  }

  /** The table covers exactly the ids entered, and stays injective. */
  lemma {:induction false} NameAllSound(names: Names, ids: seq<Id>)
    requires Numbered(names)
    ensures Numbered(NameAll(names, ids))
    ensures forall i :: i in NameAll(names, ids) <==> i in names || i in ids
    decreases |ids|
  {
    if ids != [] {
      EnterNumbered(names, ids[0]);
      hide Numbered;
      NameAllSound(Enter(names, ids[0]), ids[1..]);
      assert forall i :: i in ids <==> i == ids[0] || i in ids[1..];
    }
  }

  /** For every function: distinct ids get distinct C names, and each defined id has one. */
  lemma NamesSound(f: Function)
    ensures Injective(NamesOf(f))
    ensures forall v | v in AllVals(f) :: v.id in NamesOf(f)
    ensures forall i | i in NamesOf(f) :: |NamesOf(f)[i]| > 0 && NamesOf(f)[i][0] == 'v' && NamesOf(f)[i] != "v_missing"
  {
    NameAllSound(map[], IdsOf(AllVals(f)));
    forall v | v in AllVals(f)
      ensures v.id in NamesOf(f)
    {
      var k :| 0 <= k < |AllVals(f)| && AllVals(f)[k] == v;
      assert IdsOf(AllVals(f))[k] == v.id;
    }
    NumberedShape(NamesOf(f));
  }

  /** Distinct ids are numbered in the order in which they are met. */
  lemma {:induction false} NamesCount(names: Names, ids: seq<Id>, k: nat)
    requires Distinct(ids) && k < |ids| && forall i | i in ids :: i !in names
    ensures var all := NameAll(names, ids);
            && ids[k] in all && all[ids[k]] == "v" + Decimal(|names| + k)
            && (forall i | i in names :: i in all && all[i] == names[i])
    decreases |ids|
  {
    hide Decimal;
    var more, rest := Enter(names, ids[0]), ids[1..];
    assert ids[0] in ids && more == names[ids[0] := ValueName(|names|)] && |more| == |names| + 1;
    assert forall i, j | 0 <= i < j < |rest| :: ids[i + 1] != ids[j + 1] && rest[i] == ids[i + 1] && rest[j] == ids[j + 1];
    forall i | i in rest
      ensures i !in more
    {
      var j :| 0 <= j < |rest| && rest[j] == i;
      assert ids[j + 1] == i && ids[0] != ids[j + 1];
      assert i in ids;
    }
    if rest != [] {
      NamesCount(more, rest, if k == 0 then 0 else k - 1);
    }
  }

  /** In a function of distinct values, the `k`-th value is named `v` and its number. */
  lemma NamesAre(f: Function, k: nat)
    requires Distinct(IdsOf(AllVals(f))) && k < |AllVals(f)|
    ensures NameOf(NamesOf(f), AllVals(f)[k].id) == "v" + Decimal(k)
  {
    hide NameAll, AllVals, Decimal;
    NamesCount(map[], IdsOf(AllVals(f)), k);
    assert IdsOf(AllVals(f))[k] == AllVals(f)[k].id;
  }

  lemma NumberedShape(names: Names)
    requires Numbered(names)
    ensures forall i | i in names :: |names[i]| > 0 && names[i][0] == 'v' && names[i] != "v_missing"
  {
    forall i | i in names
      ensures |names[i]| > 0 && names[i][0] == 'v' && names[i] != "v_missing"
    {
      var k: nat :| k < |names| && names[i] == ValueName(k);
      DecimalDigits(k);
      assert names[i][1] == Decimal(k)[0];
    }
  }

  lemma {:induction false} DecimalDigits(n: nat)
    ensures forall i | 0 <= i < |Decimal(n)| :: '0' <= Decimal(n)[i] <= '9'
  {
    if n >= 10 {
      DecimalDigits(n / 10);
    }
  }

  // ---------- Declarations ----------

  function DeclNames(ds: seq<C.Decl>): (r: seq<string>)
    ensures |r| == |ds|
  {
    seq(|ds|, i requires 0 <= i < |ds| => ds[i].name)
  }

  predicate Distinct<T(==)>(xs: seq<T>) { forall i, j | 0 <= i < j < |xs| :: xs[i] != xs[j] }

  /** Each id outside `declared` is declared once; nothing in `declared` is declared again. */
  lemma {:induction false} DeclarationsSound(names: Names, declared: set<Id>, vals: seq<Val>)
    requires Injective(names) && (forall v | v in vals :: v.id in names)
    ensures Distinct(DeclNames(Declarations(names, declared, vals)))
    ensures forall x :: x in DeclNames(Declarations(names, declared, vals))
                    <==> exists v | v in vals :: v.id !in declared && names[v.id] == x
    decreases |vals|
  {
    if vals != [] {
      var v, rest := vals[0], vals[1..];
      var tail := Declarations(names, declared + {v.id}, rest);
      var all := Declarations(names, declared, vals);
      DeclarationsSound(names, declared + {v.id}, rest);
      assert forall w :: w in vals <==> w == v || w in rest;
      if v.id in declared {
        assert all == tail && declared + {v.id} == declared;
      } else {
        assert DeclNames(all) == [names[v.id]] + DeclNames(tail);
        assert forall w | w in rest && w.id !in declared + {v.id} :: names[w.id] != names[v.id];
        assert names[v.id] !in DeclNames(tail);
        forall x
          ensures x in DeclNames(all) <==> exists w | w in vals :: w.id !in declared && names[w.id] == x
        {
          if w :| w in vals && w.id !in declared && names[w.id] == x {
            if w.id != v.id {
              assert w in rest && w.id !in declared + {v.id};
            }
          }
        }
      }
    }
  }

  /** With distinct ids, each value's declaration carries its own C type. */
  lemma {:induction false} DeclarationsTyped(names: Names, declared: set<Id>, vals: seq<Val>)
    requires Distinct(IdsOf(vals))
    ensures forall v | v in vals && v.id !in declared ::
              C.Decl(CTypeOf(v.ty), NameOf(names, v.id)) in Declarations(names, declared, vals)
    decreases |vals|
  {
    if vals != [] {
      var v, rest := vals[0], vals[1..];
      forall i, j | 0 <= i < j < |rest|
        ensures IdsOf(rest)[i] != IdsOf(rest)[j]
      {
        assert IdsOf(vals)[i + 1] != IdsOf(vals)[j + 1];
      }
      DeclarationsTyped(names, declared + {v.id}, rest);
      forall w | w in rest
        ensures w.id != v.id
      {
        var k :| 0 <= k < |rest| && rest[k] == w;
        assert IdsOf(vals)[0] != IdsOf(vals)[k + 1];
      }
    }
  }

  /** The C function declares each value's variable exactly once, as a parameter
      or as a local, and a local never redeclares a parameter. */
  lemma FunctionDeclares(f: Function, hasArena: bool)
    requires Distinct(IdsOf(f.params))
    ensures var c := FunctionCode(f, hasArena);
            && Distinct(DeclNames(c.params + c.decls))
            && (forall v | v in AllVals(f) :: NameOf(NamesOf(f), v.id) in DeclNames(c.params + c.decls))
  {
    hide CasesFrom, Prologue, Declarations, NamesOf, BlocksVals, CTypeOf;
    NamesSound(f);
    var names, c, vals := NamesOf(f), FunctionCode(f, hasArena), BlocksVals(f.blocks);
    assert forall v | v in vals :: v in AllVals(f);
    DeclarationsSound(names, IdSet(f.params), vals);
    var ps, ds := DeclNames(c.params), DeclNames(c.decls);
    assert DeclNames(c.params + c.decls) == ps + ds;
    forall i | 0 <= i < |ps|
      ensures ps[i] == names[f.params[i].id] && ps[i] !in ds
    {
      assert f.params[i] in AllVals(f);
      assert forall v | v in vals && v.id !in IdSet(f.params) :: v.id != f.params[i].id && names[v.id] != ps[i];
    }
    forall i, j | 0 <= i < j < |ps|
      ensures ps[i] != ps[j]
    {
      assert IdsOf(f.params)[i] != IdsOf(f.params)[j];
      assert f.params[i] in AllVals(f) && f.params[j] in AllVals(f);
    }
    forall v | v in AllVals(f)
      ensures names[v.id] in ps + ds
    {
      if v.id in IdSet(f.params) {
        var i :| 0 <= i < |f.params| && f.params[i].id == v.id;
        assert ps[i] == names[v.id];
      } else {
        assert forall p | p in f.params :: p.id in IdSet(f.params);
        assert v in vals;
        assert names[v.id] in ds;
      }
    }
  }

  /** Value variables are told apart from the generator's temporaries by their first letter. */
  predicate IsValueName(x: string) { |x| > 0 && x[0] == 'v' }
}
