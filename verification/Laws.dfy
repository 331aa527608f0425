/** The bounded law checker: exact over every tuple of the declared values, and
    what a passed commutative and associative law buys for folds. */
module Laws {
  import opened Options

  datatype Outcome<V> = Value(v: V) | Error(reason: string)

  datatype Property<V> = Property(law: string, values: seq<V>, distinguished: Option<V>, exclusions: seq<V>)

  datatype Observation<V> = Observation(passed: bool, counterexample: Option<seq<V>>, reason: Option<string>)

  // ---------- One tuple ----------

  function Then<V>(r: Outcome<V>, next: V -> Outcome<V>): Outcome<V> { if r.Value? then next(r.v) else r }

  /** Why a tuple breaks the law; `None` when it does not. */
  function CommutativeFault<V(==)>(f: (V, V) -> Outcome<V>, a: V, b: V): Option<string> {
    var forward, reverse := f(a, b), f(b, a);
    if forward.Error? then Some(forward.reason)
    else if reverse.Error? then Some(reverse.reason)
    else if forward.v == reverse.v then None else Some("f(a,b) != f(b,a)")
  }

  function AssociativeFault<V(==)>(f: (V, V) -> Outcome<V>, a: V, b: V, c: V): Option<string> {
    var left := Then(f(a, b), x => f(x, c));
    if left.Error? then Some(left.reason)
    else
      var right := Then(f(b, c), x => f(a, x));
      if right.Error? then Some(right.reason)
      else if left.v == right.v then None else Some("f(f(a,b),c) != f(a,f(b,c))")
  }

  function IdempotentFault<V(==)>(f: (V, V) -> Outcome<V>, a: V): Option<string> {
    var r := f(a, a);
    if r.Error? then Some(r.reason) else if r.v == a then None else Some("f(a,a) != a")
  }

  function DistinguishedFault<V(==)>(f: (V, V) -> Outcome<V>, d: V, neutral: bool, a: V): Option<string> {
    var expected := if neutral then a else d;
    var left, right := f(d, a), f(a, d);
    if left.Error? then Some(left.reason)
    else if right.Error? then Some(right.reason)
    else if left.v == expected && right.v == expected then None
    else Some("distinguished-value law failed on the left or right")
  }

  // ---------- The equations ----------

  predicate Commutes<V(==)>(f: (V, V) -> Outcome<V>, a: V, b: V) { f(a, b).Value? && f(a, b) == f(b, a) }

  predicate Associates<V(==)>(f: (V, V) -> Outcome<V>, a: V, b: V, c: V) {
    f(a, b).Value? && f(b, c).Value? && f(f(a, b).v, c).Value? && f(f(a, b).v, c) == f(a, f(b, c).v)
  }

  /** `d` on either side of `a` gives `e`. */
  predicate BothSides<V(==)>(f: (V, V) -> Outcome<V>, d: V, a: V, e: V) { f(d, a) == Value(e) && f(a, d) == Value(e) }

  /** The law's equation at one value. */
  predicate Single<V(==)>(f: (V, V) -> Outcome<V>, p: Property<V>, a: V) {
    if p.law == "idempotent" then f(a, a) == Value(a)
    else
      && p.distinguished.Some?
      && (a !in p.exclusions && p.law == "neutral" ==> BothSides(f, p.distinguished.value, a, a))
      && (a !in p.exclusions && p.law != "neutral" ==> BothSides(f, p.distinguished.value, a, p.distinguished.value))
  }

  /** The first evaluation that failed says why, or else the law's own text does. */
  function FirstError<V>(evaluations: seq<Outcome<V>>, text: string): string {
    if evaluations == [] then text
    else if evaluations[0].Error? then evaluations[0].reason
    else FirstError(evaluations[1..], text)
  }

  function PairReason<V>(f: (V, V) -> Outcome<V>, a: V, b: V): string { FirstError([f(a, b), f(b, a)], "f(a,b) != f(b,a)") }

  /** A failed inner evaluation stands for the outer one. */
  function TripleReason<V>(f: (V, V) -> Outcome<V>, a: V, b: V, c: V): string {
    var ab, bc := f(a, b), f(b, c);
    FirstError([ab, if ab.Value? then f(ab.v, c) else ab, bc, if bc.Value? then f(a, bc.v) else bc], "f(f(a,b),c) != f(a,f(b,c))")
  }

  function SingleReason<V>(f: (V, V) -> Outcome<V>, p: Property<V>, a: V): string
    requires p.law == "idempotent" || p.distinguished.Some?
  {
    if p.law == "idempotent" then FirstError([f(a, a)], "f(a,a) != a")
    else FirstError([f(p.distinguished.value, a), f(a, p.distinguished.value)], "distinguished-value law failed on the left or right")
  }

  lemma FirstOfTwo<V>(x: Outcome<V>, y: Outcome<V>, text: string)
    ensures FirstError([x, y], text) == if x.Error? then x.reason else if y.Error? then y.reason else text
    ensures FirstError([x], text) == if x.Error? then x.reason else text
  {
    assert [x, y][1..] == [y] && [y][1..] == [] && [x][1..] == [];
    assert FirstError([y], text) == if y.Error? then y.reason else text;
  }

  lemma PairFault<V>(f: (V, V) -> Outcome<V>, a: V, b: V)
    ensures CommutativeFault(f, a, b) == if Commutes(f, a, b) then None else Some(PairReason(f, a, b))
  {
    FirstOfTwo(f(a, b), f(b, a), "f(a,b) != f(b,a)");
  }

  lemma TripleFault<V>(f: (V, V) -> Outcome<V>, a: V, b: V, c: V)
    ensures AssociativeFault(f, a, b, c) == if Associates(f, a, b, c) then None else Some(TripleReason(f, a, b, c))
  {
    var ab, bc, text := f(a, b), f(b, c), "f(f(a,b),c) != f(a,f(b,c))";
    var left := if ab.Value? then f(ab.v, c) else ab;
    var right := if bc.Value? then f(a, bc.v) else bc;
    assert [ab, left, bc, right][1..] == [left, bc, right] && [left, bc, right][1..] == [bc, right];
    assert FirstError([left, bc, right], text) == if left.Error? then left.reason else FirstError([bc, right], text);
    FirstOfTwo(bc, right, text);
  }

  lemma OneFault<V>(f: (V, V) -> Outcome<V>, p: Property<V>, a: V)
    requires p.law == "idempotent" || p.distinguished.Some?
    ensures SingleFault(f, p, a) == if Single(f, p, a) then None else Some(SingleReason(f, p, a))
  {
    FirstOfTwo(f(a, a), f(a, a), "f(a,a) != a");
    if p.law != "idempotent" {
      FirstOfTwo(f(p.distinguished.value, a), f(a, p.distinguished.value), "distinguished-value law failed on the left or right");
    }
  }

  // ---------- The checker ----------

  /** `check`: only the first failure is recorded. */
  class Recorder<V(==)> {
    var counterexample: Option<seq<V>>
    var reason: Option<string>

    constructor ()
      ensures counterexample == None && reason == None
    {
      counterexample, reason := None, None;
    }

    method Check(fault: Option<string>, tuple: seq<V>)
      modifies this
      ensures if fault.Some? && old(counterexample).None?
              then counterexample == Some(tuple) && reason == fault
              else counterexample == old(counterexample) && reason == old(reason)
    {
      if fault.Some? && counterexample.None? {
        counterexample, reason := Some(tuple), fault;
      }
    }

    predicate Clean()
      reads this
    {
      counterexample.None? && reason.None?
    }

    predicate Found(tuple: seq<V>, fault: Option<string>)
      reads this
    {
      fault.Some? && counterexample == Some(tuple) && reason == fault
    }
  }

  /** No pair before position `(i, j)` in loop order is faulty. */
  ghost predicate PairsHold<V(!new)>(f: (V, V) -> Outcome<V>, vs: seq<V>, i: int, j: int) {
    forall x, y | 0 <= x < |vs| && 0 <= y < |vs| && (x < i || (x == i && y < j)) :: Commutes(f, vs[x], vs[y])
  }

  /** The recorder has seen the pairs before `(i, j)`: it is clean, or holds the
      first faulty one, at `(x, y)`. */
  ghost predicate SeenPairs<V(!new)>(r: Recorder<V>, f: (V, V) -> Outcome<V>, vs: seq<V>, i: int, j: int, x: int, y: int)
    reads r
  {
    if r.Clean() then PairsHold(f, vs, i, j)
    else
      && 0 <= x < |vs| && 0 <= y < |vs| && PairsHold(f, vs, x, y) && !Commutes(f, vs[x], vs[y])
      && r.Found([vs[x], vs[y]], Some(PairReason(f, vs[x], vs[y])))
  }

  lemma PairNext<V(!new)>(f: (V, V) -> Outcome<V>, vs: seq<V>, i: nat, j: nat)
    requires i < |vs| && j < |vs| && PairsHold(f, vs, i, j) && Commutes(f, vs[i], vs[j])
    ensures PairsHold(f, vs, i, j + 1)
  {
    hide Commutes;
  }

  lemma PairRow<V(!new)>(f: (V, V) -> Outcome<V>, vs: seq<V>, i: nat)
    requires PairsHold(f, vs, i, |vs|)
    ensures PairsHold(f, vs, i + 1, 0)
  {
    hide Commutes;
  }

  method CheckCommutative<V(==, !new)>(r: Recorder<V>, f: (V, V) -> Outcome<V>, vs: seq<V>) returns (ghost x: int, ghost y: int)
    requires r.Clean()
    modifies r
    ensures SeenPairs(r, f, vs, |vs|, 0, x, y)
  {
    hide CommutativeFault, Commutes, PairReason;
    x, y := 0, 0;
    for i := 0 to |vs|
      invariant SeenPairs(r, f, vs, i, 0, x, y)
    {
      for j := 0 to |vs|
        invariant SeenPairs(r, f, vs, i, j, x, y)
      {
        hide PairsHold;
        var fault := CommutativeFault(f, vs[i], vs[j]);
        PairFault(f, vs[i], vs[j]);
        if r.Clean() {
          if fault.Some? {
            x, y := i, j;
          } else {
            PairNext(f, vs, i, j);
          }
        }
        r.Check(fault, [vs[i], vs[j]]);
      }
      if r.Clean() {
        PairRow(f, vs, i);
      }
    }
  }

  predicate Before3(x: int, y: int, z: int, i: int, j: int, k: int) { x < i || (x == i && (y < j || (y == j && z < k))) }

  ghost predicate TriplesHold<V(!new)>(f: (V, V) -> Outcome<V>, vs: seq<V>, i: int, j: int, k: int) {
    forall x, y, z | 0 <= x < |vs| && 0 <= y < |vs| && 0 <= z < |vs| && Before3(x, y, z, i, j, k) ::
      Associates(f, vs[x], vs[y], vs[z])
  }

  ghost predicate SeenTriples<V(!new)>(r: Recorder<V>, f: (V, V) -> Outcome<V>, vs: seq<V>, i: int, j: int, k: int, x: int, y: int, z: int)
    reads r
  {
    if r.Clean() then TriplesHold(f, vs, i, j, k)
    else
      && 0 <= x < |vs| && 0 <= y < |vs| && 0 <= z < |vs| && TriplesHold(f, vs, x, y, z)
      && !Associates(f, vs[x], vs[y], vs[z]) && r.Found([vs[x], vs[y], vs[z]], Some(TripleReason(f, vs[x], vs[y], vs[z])))
  }

  lemma TripleNext<V(!new)>(f: (V, V) -> Outcome<V>, vs: seq<V>, i: nat, j: nat, k: nat)
    requires i < |vs| && j < |vs| && k < |vs| && TriplesHold(f, vs, i, j, k) && Associates(f, vs[i], vs[j], vs[k])
    ensures TriplesHold(f, vs, i, j, k + 1)
  {
    hide Associates;
  }

  lemma TripleRow<V(!new)>(f: (V, V) -> Outcome<V>, vs: seq<V>, i: nat, j: nat)
    ensures TriplesHold(f, vs, i, j, |vs|) ==> TriplesHold(f, vs, i, j + 1, 0)
    ensures TriplesHold(f, vs, i, |vs|, 0) ==> TriplesHold(f, vs, i + 1, 0, 0)
  {
    hide Associates;
  }

  method CheckAssociative<V(==, !new)>(r: Recorder<V>, f: (V, V) -> Outcome<V>, vs: seq<V>)
    returns (ghost x: int, ghost y: int, ghost z: int)
    requires r.Clean()
    modifies r
    ensures SeenTriples(r, f, vs, |vs|, 0, 0, x, y, z)
  {
    hide AssociativeFault, Associates, TripleReason;
    x, y, z := 0, 0, 0;
    for i := 0 to |vs|
      invariant SeenTriples(r, f, vs, i, 0, 0, x, y, z)
    {
      for j := 0 to |vs|
        invariant SeenTriples(r, f, vs, i, j, 0, x, y, z)
      {
        hide TriplesHold;
        x, y, z := CheckRow(r, f, vs, i, j, x, y, z);
        TripleRow(f, vs, i, j);
      }
      TripleRow(f, vs, i, 0);
    }
  }

  /** The innermost loop, over the third value. */
  method CheckRow<V(==, !new)>(r: Recorder<V>, f: (V, V) -> Outcome<V>, vs: seq<V>, i: nat, j: nat, ghost x0: int, ghost y0: int, ghost z0: int)
    returns (ghost x: int, ghost y: int, ghost z: int)
    requires i < |vs| && j < |vs| && SeenTriples(r, f, vs, i, j, 0, x0, y0, z0)
    modifies r
    ensures SeenTriples(r, f, vs, i, j, |vs|, x, y, z)
  {
    hide AssociativeFault, Associates, TripleReason, TriplesHold;
    x, y, z := x0, y0, z0;
    for k := 0 to |vs|
      invariant SeenTriples(r, f, vs, i, j, k, x, y, z)
    {
      var fault := AssociativeFault(f, vs[i], vs[j], vs[k]);
      TripleFault(f, vs[i], vs[j], vs[k]);
      if r.Clean() {
        if fault.Some? {
          x, y, z := i, j, k;
        } else {
          TripleNext(f, vs, i, j, k);
        }
      }
      r.Check(fault, [vs[i], vs[j], vs[k]]);
    }
  }

  /** The laws over one value: idempotence, and those with a distinguished value. */
  function SingleFault<V(==)>(f: (V, V) -> Outcome<V>, p: Property<V>, a: V): Option<string> {
    if p.law == "idempotent" then IdempotentFault(f, a)
    else if p.distinguished.None? || a in p.exclusions then None
    else DistinguishedFault(f, p.distinguished.value, p.law == "neutral", a)
  }

  ghost predicate SinglesHold<V(!new)>(f: (V, V) -> Outcome<V>, p: Property<V>, i: int) {
    forall x | 0 <= x < |p.values| && x < i :: Single(f, p, p.values[x])
  }

  ghost predicate SeenSingles<V(!new)>(r: Recorder<V>, f: (V, V) -> Outcome<V>, p: Property<V>, i: int, x: int)
    requires p.law == "idempotent" || p.distinguished.Some?
    reads r
  {
    if r.Clean() then SinglesHold(f, p, i)
    else
      && 0 <= x < |p.values| && SinglesHold(f, p, x) && !Single(f, p, p.values[x])
      && r.Found([p.values[x]], Some(SingleReason(f, p, p.values[x])))
  }

  method CheckSingles<V(==, !new)>(r: Recorder<V>, f: (V, V) -> Outcome<V>, p: Property<V>) returns (ghost x: int)
    requires r.Clean() && (p.law == "idempotent" || p.distinguished.Some?)
    modifies r
    ensures SeenSingles(r, f, p, |p.values|, x)
  {
    hide SingleFault, Single, SingleReason;
    x := 0;
    for i := 0 to |p.values|
      invariant SeenSingles(r, f, p, i, x)
    {
      var fault := SingleFault(f, p, p.values[i]);
      OneFault(f, p, p.values[i]);
      if r.Clean() && fault.Some? {
        x := i;
      }
      r.Check(fault, [p.values[i]]);
    }
  }

  predicate NeedsDistinguished(law: string) { law == "neutral" || law == "absorbing" || law == "preserved" }

  ghost predicate Commutative<V(!new)>(f: (V, V) -> Outcome<V>, vs: seq<V>) {
    forall a, b | a in vs && b in vs :: Commutes(f, a, b)
  }

  ghost predicate Associative<V(!new)>(f: (V, V) -> Outcome<V>, vs: seq<V>) {
    forall a, b, c | a in vs && b in vs && c in vs :: Associates(f, a, b, c)
  }

  /** The law, as an equation between values of `f` on all declared values. */
  ghost predicate LawHolds<V(!new)>(f: (V, V) -> Outcome<V>, p: Property<V>) {
    if p.law == "commutative" then Commutative(f, p.values)
    else if p.law == "associative" then Associative(f, p.values)
    else if p.law == "idempotent" then forall a | a in p.values :: f(a, a) == Value(a)
    else if p.law == "neutral" then
      p.distinguished.Some? && forall a | a in p.values && a !in p.exclusions :: BothSides(f, p.distinguished.value, a, a)
    else if p.law == "absorbing" || p.law == "preserved" then
      p.distinguished.Some? && forall a | a in p.values && a !in p.exclusions :: BothSides(f, p.distinguished.value, a, p.distinguished.value)
    else false
  }

  /** The tuple is the first in loop order that breaks the equation, and why it does. */
  ghost predicate FirstBreak<V(!new)>(f: (V, V) -> Outcome<V>, p: Property<V>, tuple: seq<V>, reason: string) {
    var vs := p.values;
    if p.law == "commutative" then
      exists x, y :: 0 <= x < |vs| && 0 <= y < |vs| && PairsHold(f, vs, x, y)
        && !Commutes(f, vs[x], vs[y]) && tuple == [vs[x], vs[y]] && reason == PairReason(f, vs[x], vs[y])
    else if p.law == "associative" then
      exists x, y, z :: 0 <= x < |vs| && 0 <= y < |vs| && 0 <= z < |vs| && TriplesHold(f, vs, x, y, z)
        && !Associates(f, vs[x], vs[y], vs[z]) && tuple == [vs[x], vs[y], vs[z]] && reason == TripleReason(f, vs[x], vs[y], vs[z])
    else if p.law == "idempotent" || (NeedsDistinguished(p.law) && p.distinguished.Some?) then
      exists x :: 0 <= x < |vs| && SinglesHold(f, p, x)
        && !Single(f, p, vs[x]) && tuple == [vs[x]] && reason == SingleReason(f, p, vs[x])
    else
      && tuple == []
      && reason == if NeedsDistinguished(p.law) then "this law requires a distinguished value" else "unknown bounded execution property law"
  }

  lemma AllPairs<V(!new)>(f: (V, V) -> Outcome<V>, vs: seq<V>)
    ensures PairsHold(f, vs, |vs|, 0) <==> Commutative(f, vs)
  {
    hide Commutes;
    if PairsHold(f, vs, |vs|, 0) {
      forall a, b | a in vs && b in vs
        ensures Commutes(f, a, b)
      {
        var i :| 0 <= i < |vs| && vs[i] == a;
        var j :| 0 <= j < |vs| && vs[j] == b;
      }
    }
  }

  lemma AllTriples<V(!new)>(f: (V, V) -> Outcome<V>, vs: seq<V>)
    ensures TriplesHold(f, vs, |vs|, 0, 0) <==> Associative(f, vs)
  {
    hide Associates;
    if TriplesHold(f, vs, |vs|, 0, 0) {
      forall a, b, c | a in vs && b in vs && c in vs
        ensures Associates(f, a, b, c)
      {
        var i :| 0 <= i < |vs| && vs[i] == a;
        var j :| 0 <= j < |vs| && vs[j] == b;
        var k :| 0 <= k < |vs| && vs[k] == c;
        assert Before3(i, j, k, |vs|, 0, 0);
      }
    }
  }

  lemma AllSingles<V(!new)>(f: (V, V) -> Outcome<V>, p: Property<V>)
    requires p.law == "idempotent" || (NeedsDistinguished(p.law) && p.distinguished.Some?)
    ensures SinglesHold(f, p, |p.values|) <==> LawHolds(f, p)
  {
    hide BothSides;
    if SinglesHold(f, p, |p.values|) {
      forall a | a in p.values
        ensures Single(f, p, a)
      {
        var i :| 0 <= i < |p.values| && p.values[i] == a;
      }
    }
  }

  /** `passed` exactly when the law's equation holds of all declared values; otherwise
      the counterexample is the first tuple in loop order that breaks it. */
  method EvaluateProperty<V(==, !new)>(f: (V, V) -> Outcome<V>, p: Property<V>) returns (o: Observation<V>)
    ensures o.passed <==> LawHolds(f, p)
    ensures o.passed ==> o.counterexample == None && o.reason == None
    ensures !o.passed ==> o.counterexample.Some? && o.reason.Some? && FirstBreak(f, p, o.counterexample.value, o.reason.value)
  {
    hide Commutes, Associates, Single, BothSides, Commutative, Associative, FirstError;
    var r := new Recorder<V>();
    if p.law == "commutative" {
      ghost var x, y := CheckCommutative(r, f, p.values);
      AllPairs(f, p.values);
    } else if p.law == "associative" {
      ghost var x, y, z := CheckAssociative(r, f, p.values);
      AllTriples(f, p.values);
    } else if p.law == "idempotent" {
      ghost var x := CheckSingles(r, f, p);
      AllSingles(f, p);
    } else if NeedsDistinguished(p.law) {
      if p.distinguished.None? {
        r.Check(Some("this law requires a distinguished value"), []);
        return Observation(false, r.counterexample, r.reason);
      }
      ghost var x := CheckSingles(r, f, p);
      AllSingles(f, p);
    } else {
      r.Check(Some("unknown bounded execution property law"), []);
    }
    o := Observation(r.counterexample.None?, r.counterexample, r.reason);
  }

  // ---------- What passing buys ----------

  /** The declared values are closed under the operation. */
  ghost predicate Closed<V(!new)>(f: (V, V) -> Outcome<V>, vs: seq<V>) {
    forall a, b {:trigger StaysIn(f, vs, a, b)} | a in vs && b in vs :: StaysIn(f, vs, a, b)
  }

  predicate StaysIn<V(==)>(f: (V, V) -> Outcome<V>, vs: seq<V>, a: V, b: V) { f(a, b).Value? && f(a, b).v in vs }

  ghost predicate Passes<V(!new)>(f: (V, V) -> Outcome<V>, vs: seq<V>) {
    Commutative(f, vs) && Associative(f, vs) && Closed(f, vs)
  }

  lemma PassedCommutes<V(!new)>(f: (V, V) -> Outcome<V>, vs: seq<V>, a: V, b: V)
    requires Passes(f, vs) && a in vs && b in vs
    ensures f(a, b) == f(b, a) && f(a, b).Value? && f(a, b).v in vs
  {
    hide Associative;
    assert StaysIn(f, vs, a, b) && Commutes(f, a, b);
  }

  lemma PassedAssociates<V(!new)>(f: (V, V) -> Outcome<V>, vs: seq<V>, a: V, b: V, c: V)
    requires Passes(f, vs) && a in vs && b in vs && c in vs
    ensures f(a, b).Value? && f(b, c).Value? && f(f(a, b).v, c) == f(a, f(b, c).v)
  {
    hide Commutative, Closed;
    assert Associates(f, a, b, c);
  }

  /** A fold with any bracketing. */
  datatype Tree<V> = Leaf(v: V) | Node(left: Tree<V>, right: Tree<V>)

  function Leaves<V>(t: Tree<V>): (r: seq<V>)
    ensures |r| > 0
  {
    match t
    case Leaf(v) => [v]
    case Node(l, r) => Leaves(l) + Leaves(r)
  }

  function Fold<V>(f: (V, V) -> Outcome<V>, t: Tree<V>): Outcome<V> {
    match t
    case Leaf(v) => Value(v)
    case Node(l, r) =>
      var x, y := Fold(f, l), Fold(f, r);
      if x.Error? then x else if y.Error? then y else f(x.v, y.v)
  }

  ghost predicate Over<V(!new)>(xs: seq<V>, vs: seq<V>) { forall x | x in xs :: x in vs }

  /** The fold that nests to the right. */
  function Comb<V>(f: (V, V) -> Outcome<V>, xs: seq<V>): Outcome<V>
    requires xs != []
    decreases |xs|
  {
    if |xs| == 1 then Value(xs[0])
    else
      var rest := Comb(f, xs[1..]);
      if rest.Error? then rest else f(xs[0], rest.v)
  }

  lemma {:induction false} CombCloses<V(!new)>(f: (V, V) -> Outcome<V>, vs: seq<V>, xs: seq<V>)
    requires Passes(f, vs) && xs != [] && Over(xs, vs)
    ensures Comb(f, xs).Value? && Comb(f, xs).v in vs
    decreases |xs|
  {
    hide Passes;
    if |xs| > 1 {
      CombCloses(f, vs, xs[1..]);
      PassedCommutes(f, vs, xs[0], Comb(f, xs[1..]).v);
    }
  }

  lemma {:induction false} CombAppend<V(!new)>(f: (V, V) -> Outcome<V>, vs: seq<V>, xs: seq<V>, ys: seq<V>)
    requires Passes(f, vs) && xs != [] && ys != [] && Over(xs, vs) && Over(ys, vs)
    ensures Comb(f, xs).Value? && Comb(f, ys).Value?
    ensures Comb(f, xs + ys) == f(Comb(f, xs).v, Comb(f, ys).v)
    decreases |xs|
  {
    hide Passes;
    CombCloses(f, vs, xs);
    CombCloses(f, vs, ys);
    assert (xs + ys)[0] == xs[0] && (xs + ys)[1..] == xs[1..] + ys;
    if |xs| == 1 {
      assert xs[1..] + ys == ys;
    } else {
      CombAppend(f, vs, xs[1..], ys);
      CombCloses(f, vs, xs[1..]);
      PassedAssociates(f, vs, xs[0], Comb(f, xs[1..]).v, Comb(f, ys).v);
    }
  }

  /** Any bracketing folds to the right-nested fold of its leaves. */
  lemma {:induction false} FoldIsComb<V(!new)>(f: (V, V) -> Outcome<V>, vs: seq<V>, t: Tree<V>)
    requires Passes(f, vs) && Over(Leaves(t), vs)
    ensures Fold(f, t) == Comb(f, Leaves(t))
    decreases t
  {
    hide Passes;
    if t.Node? {
      assert forall x | x in Leaves(t.left) :: x in Leaves(t);
      assert forall x | x in Leaves(t.right) :: x in Leaves(t);
      FoldIsComb(f, vs, t.left);
      FoldIsComb(f, vs, t.right);
      hide Comb, Over;
      CombAppend(f, vs, Leaves(t.left), Leaves(t.right));
    }
  }

  /** Any leaf may come first. */
  lemma CombPulls<V(!new)>(f: (V, V) -> Outcome<V>, vs: seq<V>, xs: seq<V>, i: nat)
    requires Passes(f, vs) && i < |xs| && Over(xs, vs)
    ensures Comb(f, xs) == Comb(f, [xs[i]] + (xs[..i] + xs[i + 1..]))
  {
    hide Passes, Comb, Over;
    var a, x, b := xs[..i], xs[i], xs[i + 1..];
    SplitAt(xs, i);
    OverParts(vs, a, x, b, xs);
    if i == 0 {
      assert [x] + (a + b) == xs;
    } else {
      CombSwap(f, vs, a, x);
      if b == [] {
        assert xs == a + [x] && [x] + (a + b) == [x] + a;
      } else {
        CombAppend(f, vs, a + [x], b);
        CombAppend(f, vs, [x] + a, b);
        assert [x] + (a + b) == ([x] + a) + b;
      }
    }
  }

  lemma SplitAt<V>(xs: seq<V>, i: nat)
    requires i < |xs|
    ensures xs == (xs[..i] + [xs[i]]) + xs[i + 1..]
  {
  }

  lemma OverParts<V(!new)>(vs: seq<V>, a: seq<V>, x: V, b: seq<V>, xs: seq<V>)
    requires Over(xs, vs) && xs == (a + [x]) + b
    ensures Over(a, vs) && Over(b, vs) && x in vs && Over(a + [x], vs) && Over([x] + a, vs)
  {
    assert x in xs;
    assert forall y | y in a :: y in xs;
    assert forall y | y in b :: y in xs;
  }

  /** A single value moves past a fold. */
  lemma CombSwap<V(!new)>(f: (V, V) -> Outcome<V>, vs: seq<V>, a: seq<V>, x: V)
    requires Passes(f, vs) && a != [] && Over(a, vs) && x in vs
    ensures Comb(f, a + [x]) == Comb(f, [x] + a)
  {
    hide Passes;
    assert Comb(f, [x]) == Value(x);
    CombAppend(f, vs, a, [x]);
    CombAppend(f, vs, [x], a);
    CombCloses(f, vs, a);
    PassedCommutes(f, vs, x, Comb(f, a).v);
  }

  lemma {:induction false} CombPermutes<V(!new)>(f: (V, V) -> Outcome<V>, vs: seq<V>, xs: seq<V>, ys: seq<V>)
    requires Passes(f, vs) && xs != [] && Over(xs, vs) && multiset(xs) == multiset(ys)
    ensures ys != [] && Comb(f, xs) == Comb(f, ys)
    decreases |xs|
  {
    hide Passes;
    assert |multiset(xs)| == |xs| && |multiset(ys)| == |ys|;
    assert xs[0] in multiset(ys);
    var i :| 0 <= i < |ys| && ys[i] == xs[0];
    forall y | y in ys
      ensures y in vs
    {
      assert y in multiset(xs);
    }
    var rest := ys[..i] + ys[i + 1..];
    CombPulls(f, vs, ys, i);
    assert ys == ys[..i] + ([ys[i]] + ys[i + 1..]);
    assert xs == [xs[0]] + xs[1..];
    assert multiset(rest) == multiset(ys) - multiset{xs[0]};
    assert multiset(xs[1..]) == multiset(xs) - multiset{xs[0]};
    var pulled := [ys[i]] + rest;
    assert pulled[1..] == rest;
    if |xs| > 1 {
      CombPermutes(f, vs, xs[1..], rest);
    }
  }

  /** If the checker passes both laws on a closed carrier, every fold of the same
      values, in any order and bracketing, has the same value. */
  lemma FoldsAgree<V(!new)>(f: (V, V) -> Outcome<V>, vs: seq<V>, s: Tree<V>, t: Tree<V>)
    requires Passes(f, vs) && Over(Leaves(s), vs) && multiset(Leaves(s)) == multiset(Leaves(t))
    ensures Fold(f, s).Value? && Fold(f, s) == Fold(f, t)
  {
    forall y | y in Leaves(t)
      ensures y in vs
    {
      assert y in multiset(Leaves(s));
    }
    FoldIsComb(f, vs, s);
    FoldIsComb(f, vs, t);
    CombPermutes(f, vs, Leaves(s), Leaves(t));
    CombCloses(f, vs, Leaves(s));
  }
}
