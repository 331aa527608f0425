/** One valid function that uses every instruction: no kind of instruction is ruled
    out by the conditions of the main results. */
module Catalogue {
  import opened Mncs
  import opened Emit
  import opened Naming
  import opened Envelope
  import opened Validation
  import opened Blocks
  import opened Entry
  import opened Witness
  import opened EscapedRead

  const PAIR: Ty := TSeq(WORD, 2)
  const SLICE: Ty := TView(WORD, 3)
  const PART: Ty := TView(WORD, 2)

  function Params(): (r: seq<Val>)
    ensures |r| == 5
  {
    [Val("i", U64_TYPE), Val("w", WORD), Val("b", TBool), Val("l", PAIR), Val("v", SLICE)]
  }

  function AllKinds(): (r: seq<Inst>)
    ensures |r| == 17
  {
    [ Const(Val("c", WORD), 1),
      Integer(Val("d", WORD), OpAdd, Checked, false, "w", "c"),
      Compare(Val("e", TBool), PLt, B32, true, "w", "c"),
      Boolean(Val("f", TBool), true, "b", "e"),
      BooleanCompare(Val("g", TBool), true, "b", "e"),
      BooleanNot(Val("h", TBool), "b"),
      Convert(Val("j", U64_TYPE), WORD, "w"),
      Select(Val("k", WORD), "b", "w", "c"),
      SequenceConstruct(Val("m", PAIR), ["w", "c"]),
      SequenceReplace(Val("n", PAIR), "l", "i", "w", 2, S32, RuntimeChecked),
      SequenceCopy(Val("o", PAIR), "l", "i", "v", "i", "i", UpTo(3), RuntimeChecked, 2, S32),
      SequenceProject(Val("p", WORD), "l", "i", Exact(2), StaticExact, S32),
      SequenceLength(Val("q", U64_TYPE), UpTo(3), "v"),
      ViewConstruct(Val("r", PART), Exact(2), 2, "l", "i", "i"),
      ViewNarrow(Val("s", PART), "v", 2),
      BoundCheck(Val("t", U64_TYPE), "l", "i", Exact(2)),
      Call(Val("u", WORD), "all", ["i", "w", "b", "l", "v"]) ]
  }

  function AllBlock(): Block { Block("only", [], AllKinds(), Return("u")) }

  function Whole(): Function { Function("all", Params(), WORD, [AllBlock()]) }

  function Listing(): Module { map["all" := Whole()] }

  // ---------- Names and types ----------

  function Spelled(): (r: string)
    ensures |r| == 22
  {
    "iwblvcdefghjkmnopqrstu"
  }

  function Letters(): (r: seq<Id>)
    ensures |r| == 22
  {
    ["i", "w", "b", "l", "v", "c", "d", "e", "f", "g", "h", "j", "k", "m", "n", "o", "p", "q", "r", "s", "t", "u"]
  }

  function Dest5(k: nat): Val
    requires k < 22
  {
    if k < 5 then Params()[k] else AllKinds()[k - 5].dest
  }

  lemma LettersDistinct()
    ensures Distinct(Letters())
  {
    hide Letters, Spelled;
    SpelledApart();
    var ids := Letters();
    forall i, j | 0 <= i < j < 22
      ensures ids[i] != ids[j]
    {
      SpelledOut(i);
      SpelledOut(j);
    }
  }

  lemma SpelledOut(k: nat)
    requires k < 22
    ensures |Letters()[k]| == 1 && Letters()[k][0] == Spelled()[k]
  {
  }

  lemma SpelledApart()
    ensures forall i, j | 0 <= i < j < 22 :: Spelled()[i] != Spelled()[j]
  {
  }

  lemma AllPlain()
    ensures forall i | 0 <= i < 17 :: Plain(AllKinds()[i])
  {
  }

  lemma DestLetters(k: nat)
    requires k < 17
    ensures Dest(AllKinds()[k]).Some? && AllKinds()[k].dest.id == Letters()[k + 5]
  {
  }

  lemma ParamLetters(k: nat)
    requires k < 5
    ensures Params()[k].id == Letters()[k]
  {
  }

  lemma WholeVals()
    ensures var vs := AllVals(Whole()); |vs| == 22 && forall k | 0 <= k < 22 :: vs[k] == Dest5(k) && IdsOf(vs)[k] == Letters()[k]
    ensures Distinct(IdsOf(AllVals(Whole())))
  {
    hide Flatten, LowerAll, Dests, AllKinds, Params, Letters, Plain;
    OneBlock(AllBlock());
    AllPlain();
    PlainDests(AllKinds());
    LettersDistinct();
    var vs := AllVals(Whole());
    forall k | 0 <= k < 22
      ensures vs[k] == Dest5(k) && IdsOf(vs)[k] == Letters()[k]
    {
      if k < 5 {
        ParamLetters(k);
      } else {
        DestLetters(k - 5);
      }
    }
  }

  ghost predicate LettersTyped(types: Types) { forall k | 0 <= k < 22 :: Typed(types, Letters()[k], Dest5(k).ty) }

  lemma WholeTypes()
    ensures LettersTyped(TypesOf(Whole()))
  {
    hide AllVals, AllKinds, Params, Letters;
    WholeVals();
    TypesSound(AllVals(Whole()));
    forall k | 0 <= k < 22
      ensures Typed(TypesOf(Whole()), Letters()[k], Dest5(k).ty)
    {
      var v := AllVals(Whole())[k];
      assert v in AllVals(Whole()) && IdsOf(AllVals(Whole()))[k] == v.id;
    }
  }

  /** The types that operands have. */
  predicate OperandsTyped(types: Types) {
    && Typed(types, "i", U64_TYPE) && Typed(types, "w", WORD) && Typed(types, "b", TBool) && Typed(types, "l", PAIR)
    && Typed(types, "v", SLICE) && Typed(types, "c", WORD) && Typed(types, "e", TBool)
  }

  lemma OperandTypes(types: Types)
    requires LettersTyped(types)
    ensures OperandsTyped(types)
  {
    OperandLetters();
    OperandDests();
    hide Letters, Dest5, LettersTyped;
    LetterTyped(types, 0); LetterTyped(types, 1); LetterTyped(types, 2); LetterTyped(types, 3);
    LetterTyped(types, 4); LetterTyped(types, 5); LetterTyped(types, 7);
  }

  lemma LetterTyped(types: Types, k: nat)
    requires LettersTyped(types) && k < 22
    ensures Typed(types, Letters()[k], Dest5(k).ty)
  {
    hide Letters, Dest5;
  }

  lemma OperandLetters()
    ensures var ids := Letters();
            ids[0] == "i" && ids[1] == "w" && ids[2] == "b" && ids[3] == "l" && ids[4] == "v" && ids[5] == "c" && ids[7] == "e"
  {
  }

  lemma OperandDests()
    ensures Dest5(0).ty == U64_TYPE && Dest5(1).ty == WORD && Dest5(2).ty == TBool && Dest5(3).ty == PAIR
    ensures Dest5(4).ty == SLICE && Dest5(5).ty == WORD && Dest5(7).ty == TBool
  {
  }

  // ---------- Validity ----------

  lemma KindTyped(types: Types, k: nat)
    requires LettersTyped(types) && OperandsTyped(types) && k < 17
    ensures WellTyped(Listing(), types, AllKinds()[k])
  {
    hide LettersTyped;
    DestTyped(types, k);
    hide Letters, Dest5;
    if k < 9 { EarlyTyped(types, k); } else { LateTyped(types, k); }
  }

  lemma DestTyped(types: Types, k: nat)
    requires LettersTyped(types) && k < 17
    ensures Dest(AllKinds()[k]).Some? && Typed(types, AllKinds()[k].dest.id, AllKinds()[k].dest.ty)
  {
    hide AllKinds, Letters;
    DestLetters(k);
    assert Dest5(k + 5) == AllKinds()[k].dest;
  }

  lemma EarlyTyped(types: Types, k: nat)
    requires k < 9 && OperandsTyped(types) && Typed(types, AllKinds()[k].dest.id, AllKinds()[k].dest.ty)
    ensures WellTyped(Listing(), types, AllKinds()[k])
  {
    if k < 3 {
    } else if k < 6 {
    } else if k == 8 {
      var ins := ["w", "c"];
      assert ins[0] == "w" && ins[1] == "c";
    }
  }

  lemma LateTyped(types: Types, k: nat)
    requires 9 <= k < 17 && OperandsTyped(types) && Typed(types, AllKinds()[k].dest.id, AllKinds()[k].dest.ty)
    ensures WellTyped(Listing(), types, AllKinds()[k])
  {
    if k == 9 {
    } else if k == 10 {
    } else if k < 13 {
    } else if k < 16 {
    } else {
      CallTyped(types);
    }
  }

  lemma CallTyped(types: Types)
    requires OperandsTyped(types) && Typed(types, "u", WORD)
    ensures WellTyped(Listing(), types, AllKinds()[16])
  {
    var args, ps := ["i", "w", "b", "l", "v"], Params();
    forall i | 0 <= i < 5
      ensures Typed(types, args[i], ps[i].ty)
    {
      if i == 0 {
      } else if i == 1 {
      } else if i == 2 {
      } else if i == 3 {
      }
    }
  }

  /** What is bound before instruction `k`. */
  function Bound(k: nat): set<Id> { set j | 0 <= j < 22 && j < k + 5 :: Letters()[j] }

  lemma BoundIs(k: nat, j: nat)
    requires k <= 17 && j < 22
    ensures Letters()[j] in Bound(k) <==> j < k + 5
  {
    hide Letters;
    LettersDistinct();
  }

  lemma BoundNext(k: nat)
    requires k < 17
    ensures Bound(k + 1) == Bound(k) + {Letters()[k + 5]}
  {
    hide Letters;
  }

  /** The operands that instruction `k` may use. */
  function Operands(k: nat): set<Id> { {"i", "w", "b", "l", "v"} + (if k > 0 then {"c"} else {}) + (if k > 2 then {"e"} else {}) }

  lemma OperandsAt(k: nat)
    requires k <= 17
    ensures Operands(k) <= Bound(k)
  {
    OperandLetters();
    hide Bound, Letters;
    BoundIs(k, 0); BoundIs(k, 1); BoundIs(k, 2); BoundIs(k, 3); BoundIs(k, 4); BoundIs(k, 5); BoundIs(k, 7);
  }

  lemma KindOperands(k: nat)
    requires k < 17
    ensures Available(Uses(AllKinds()[k]), Operands(k))
  {
  }

  lemma KindUses(k: nat)
    requires k < 17
    ensures Available(Uses(AllKinds()[k]), Bound(k)) && AllKinds()[k].dest.id !in Bound(k)
  {
    hide Bound, Operands, AllKinds, Letters, Uses;
    KindOperands(k);
    OperandsAt(k);
    DestLetters(k);
    BoundIs(k, k + 5);
  }

  lemma {:induction false} KindsOk(types: Types, k: nat)
    requires LettersTyped(types) && OperandsTyped(types) && k <= 17
    ensures InstsOk(Listing(), types, Bound(k), AllKinds()[k..]) && HaveAfter(Bound(k), AllKinds()[k..]) == Bound(17)
    decreases 17 - k
  {
    hide WellTyped, Uses, AllKinds, LettersTyped, OperandsTyped, Bound, Listing;
    if k < 17 {
      var rest := AllKinds()[k..];
      assert rest[0] == AllKinds()[k] && rest[1..] == AllKinds()[k + 1..];
      KindTyped(types, k);
      KindUses(k);
      DestLetters(k);
      BoundNext(k);
      KindsOk(types, k + 1);
    }
  }

  lemma WholeHave(dom: map<Id, set<Id>>)
    ensures Have(Whole(), dom, AllBlock()) == Bound(0)
  {
    hide DefsOf, Letters, Params;
    forall id
      ensures id in IdSet(Params()) <==> id in Bound(0)
    {
      if id in IdSet(Params()) {
        var k :| 0 <= k < 5 && Params()[k].id == id;
        ParamLetters(k);
        assert Letters()[k] in Bound(0);
      }
      if id in Bound(0) {
        var k :| 0 <= k < 5 && Letters()[k] == id;
        ParamLetters(k);
        assert Params()[k].id in IdSet(Params());
      }
    }
  }

  lemma AllBlockOk(dom: map<Id, set<Id>>)
    ensures BlockOk(Listing(), Whole(), dom, AllBlock())
  {
    hide TypesOf, InstsOk, HaveAfter, Bound, Have, AllKinds, LettersTyped;
    WholeTypes();
    OperandTypes(TypesOf(Whole()));
    WholeHave(dom);
    KindsOk(TypesOf(Whole()), 0);
    assert AllKinds()[0..] == AllKinds();
    ReturnOk(TypesOf(Whole()));
  }

  lemma ReturnOk(types: Types)
    requires LettersTyped(types)
    ensures "u" in Bound(17) && Typed(types, "u", WORD)
  {
    BoundIs(17, 21);
    assert Letters()[21] == "u" && Dest5(21).ty == WORD;
  }

  lemma ListingValid()
    ensures ModuleOk(Listing())
  {
    hide BlockOk, AllVals, AllKinds, Distinct, IdsOf;
    var dom: map<Id, set<Id>> := map["only" := {"only"}];
    WholeVals();
    AllBlockOk(dom);
    assert FunctionOk(Listing(), Whole(), dom);
  }

  // ---------- Bounds ----------

  /** Operands for an instruction over a sequence or a view of `n` elements. */
  predicate Sized(types: Types, n: nat, e: Ty) {
    && Typed(types, "s", TSeq(e, n)) && Typed(types, "v", TView(e, n)) && Typed(types, "i", U64_TYPE) && Typed(types, "x", e)
  }

  /** Sequences, views and capacities of up to 4096 elements are valid, and no longer ones. */
  lemma BoundsAre(m: Module, types: Types, n: nat, e: Ty, evidence: Evidence)
    requires Sized(types, n, e) && Typed(types, "u", U64_TYPE)
    ensures var seqn, w := Val("s", TSeq(e, n)), SlotWidthOf(e);
            && (WellTyped(m, types, SequenceReplace(seqn, "s", "i", "x", n, w, evidence)) <==> n <= 4096)
            && (WellTyped(m, types, SequenceCopy(seqn, "s", "i", "v", "i", "i", UpTo(n), evidence, n, w)) <==> n <= 4096)
            && (WellTyped(m, types, SequenceProject(Val("x", e), "s", "i", Exact(n), evidence, w)) <==> n <= 4096)
  {
    hide SlotWidthOf;
  }

  lemma ViewBoundsAre(m: Module, types: Types, n: nat, e: Ty)
    requires Sized(types, n, e) && Typed(types, "u", U64_TYPE)
    ensures var view := Val("v", TView(e, n));
            && (WellTyped(m, types, SequenceLength(Val("u", U64_TYPE), UpTo(n), "v")) <==> n <= 4096)
            && (WellTyped(m, types, ViewConstruct(view, Exact(n), n, "s", "i", "i")) <==> n <= 4096)
            && (WellTyped(m, types, ViewNarrow(view, "v", n)) <==> n <= 4096)
            && (WellTyped(m, types, BoundCheck(Val("u", U64_TYPE), "v", "i", UpTo(n))) <==> n <= 4096)
  {
  }

  /** The instructions of the source language, numbered. */
  function KindOf(inst: Inst): nat {
    match inst
    case Const(_, _) => 0
    case Integer(_, _, _, _, _, _) => 1
    case Compare(_, _, _, _, _, _) => 2
    case Boolean(_, _, _, _) => 3
    case BooleanCompare(_, _, _, _) => 4
    case BooleanNot(_, _) => 5
    case Convert(_, _, _) => 6
    case Select(_, _, _, _) => 7
    case SequenceConstruct(_, _) => 8
    case SequenceReplace(_, _, _, _, _, _, _) => 9
    case SequenceCopy(_, _, _, _, _, _, _, _, _, _) => 10
    case SequenceProject(_, _, _, _, _, _) => 11
    case SequenceLength(_, _, _) => 12
    case ViewConstruct(_, _, _, _, _, _) => 13
    case ViewNarrow(_, _, _) => 14
    case BoundCheck(_, _, _, _) => 15
    case Call(_, _, _) => 16
    case _ => 17
  }

  lemma KindsListed(k: nat)
    requires k < 17
    ensures KindOf(AllKinds()[k]) == k
  {
  }

  /** Every kind of instruction of the source language occurs in the valid module. */
  lemma EveryKindIsValid(inst: Inst)
    requires Source(inst)
    ensures ModuleOk(Listing()) && exists k :: 0 <= k < |AllKinds()| && KindOf(AllKinds()[k]) == KindOf(inst)
  {
    ListingValid();
    KindsListed(KindOf(inst));
    hide ModuleOk, AllKinds;
  }
}
