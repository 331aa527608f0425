/** The file module resolver: every compatible candidate counts, and the outcome
    does not depend on the order of the search roots. */
module Resolver {
  import opened Options

  datatype File = File(locator: string, text: string)

  datatype Resolution = NotFound | Resolved(file: File) | Conflict(locators: seq<string>)

  // ---------- Sorting locators ----------

  predicate LexLe(a: string, b: string)
    decreases |a|
  {
    a == "" || (b != "" && (a[0] < b[0] || (a[0] == b[0] && LexLe(a[1..], b[1..]))))
  }

  lemma {:induction false} LexTotal(a: string, b: string)
    ensures LexLe(a, b) || LexLe(b, a)
    decreases |a|
  {
    if a != "" && b != "" {
      LexTotal(a[1..], b[1..]);
    }
  }

  lemma {:induction false} LexTransitive(a: string, b: string, c: string)
    requires LexLe(a, b) && LexLe(b, c)
    ensures LexLe(a, c)
    decreases |a|
  {
    if a != "" && a[0] == b[0] && b[0] == c[0] {
      LexTransitive(a[1..], b[1..], c[1..]);
    }
  }

  /** Lexicographic order: at the first difference the smaller character decides,
      and a prefix comes first. */
  lemma {:induction false} LexMeans(a: string, b: string)
    ensures LexLe(a, b) <==> a <= b || exists k :: 0 <= k < |a| && k < |b| && a[..k] == b[..k] && a[k] < b[k]
    decreases |a|
  {
    if a != "" && b != "" {
      LexMeans(a[1..], b[1..]);
      if a[0] == b[0] {
        assert a[1..] <= b[1..] <==> a <= b;
        if k :| 0 <= k < |a[1..]| && k < |b[1..]| && a[1..][..k] == b[1..][..k] && a[1..][k] < b[1..][k] {
          assert a[..k + 1] == [a[0]] + a[1..][..k] && b[..k + 1] == [b[0]] + b[1..][..k] && a[k + 1] < b[k + 1];
        }
        if k :| 0 <= k < |a| && k < |b| && a[..k] == b[..k] && a[k] < b[k] {
          assert k > 0 && a[1..][..k - 1] == a[..k][1..] && b[1..][..k - 1] == b[..k][1..];
          assert a[1..][k - 1] < b[1..][k - 1];
        }
      } else {
        assert a[..0] == b[..0];
        if k :| 0 <= k < |a| && k < |b| && a[..k] == b[..k] && a[k] < b[k] {
          assert k > 0 ==> a[..k][0] == b[..k][0];
        }
      }
    }
  }

  predicate Sorted(xs: seq<string>) { forall i, j | 0 <= i < j < |xs| :: LexLe(xs[i], xs[j]) }

  function Insert(x: string, xs: seq<string>): (r: seq<string>)
    ensures multiset(r) == multiset(xs) + multiset{x}
  {
    if xs == [] then [x]
    else if LexLe(x, xs[0]) then [x] + xs
    else
      assert xs == [xs[0]] + xs[1..];
      [xs[0]] + Insert(x, xs[1..])
  }

  function Sort(xs: seq<string>): (r: seq<string>)
    ensures multiset(r) == multiset(xs) && |r| == |xs|
  {
    if xs == [] then []
    else
      assert xs == [xs[0]] + xs[1..];
      var r := Insert(xs[0], Sort(xs[1..]));
      assert |multiset(r)| == |r| && |multiset(xs)| == |xs|;
      r
  }

  lemma {:induction false} InsertSorted(x: string, xs: seq<string>)
    requires Sorted(xs)
    ensures Sorted(Insert(x, xs))
  {
    if xs != [] {
      if LexLe(x, xs[0]) {
        forall j | 0 <= j < |xs|
          ensures LexLe(x, xs[j])
        {
          if j > 0 {
            LexTransitive(x, xs[0], xs[j]);
          }
        }
      } else {
        LexTotal(x, xs[0]);
        InsertSorted(x, xs[1..]);
        var rest := Insert(x, xs[1..]);
        forall j | 0 <= j < |rest|
          ensures LexLe(xs[0], rest[j])
        {
          assert rest[j] in multiset(rest);
          if rest[j] != x {
            assert rest[j] in multiset(xs[1..]);
            var k :| 0 <= k < |xs[1..]| && xs[1..][k] == rest[j];
            assert xs[k + 1] == rest[j];
          }
        }
      }
    }
  }

  lemma {:induction false} SortSorts(xs: seq<string>)
    ensures Sorted(Sort(xs))
  {
    if xs != [] {
      SortSorts(xs[1..]);
      InsertSorted(xs[0], Sort(xs[1..]));
    }
  }

  // ---------- The search ----------

  predicate NameChar(c: char) { 'a' <= c <= 'z' || '0' <= c <= '9' || c == '.' || c == '_' }

  predicate ValidName(name: string) {
    && name != ""
    && (forall i | 0 <= i < |name| :: NameChar(name[i]))
    && name[0] != '.' && name[|name| - 1] != '.'
    && forall i | 0 <= i < |name| - 1 :: !(name[i] == '.' && name[i + 1] == '.')
  }

  /** One component of a module name. */
  predicate Segment(s: string) { s != "" && forall c | c in s :: c == '_' || 'a' <= c <= 'z' || '0' <= c <= '9' }

  function Dotted(segments: seq<string>): string
    requires segments != []
  {
    if |segments| == 1 then segments[0] else segments[0] + "." + Dotted(segments[1..])
  }

  /** The names searched for are the segments joined by single dots. */
  lemma ValidNameMeans(name: string)
    ensures ValidName(name) <==> exists segments | segments != [] && (forall s | s in segments :: Segment(s)) :: Dotted(segments) == name
  {
    if ValidName(name) {
      var segments := Segments(name);
    }
    if segments: seq<string> :| segments != [] && (forall s | s in segments :: Segment(s)) && Dotted(segments) == name {
      DottedValid(segments);
    }
  }

  lemma {:induction false} Segments(name: string) returns (segments: seq<string>)
    requires ValidName(name)
    ensures segments != [] && (forall s | s in segments :: Segment(s)) && Dotted(segments) == name
    decreases |name|
  {
    if k :| 0 <= k < |name| && name[k] == '.' && forall i | 0 <= i < k :: name[i] != '.' {
      var rest := name[k + 1..];
      TailValid(name, k);
      var more := Segments(rest);
      segments := [name[..k]] + more;
      assert segments[1..] == more && name == name[..k] + "." + rest;
    } else {
      FirstDot(name, |name|);
      segments := [name];
    }
  }

  lemma TailValid(name: string, k: nat)
    requires ValidName(name) && k < |name| && name[k] == '.'
    ensures ValidName(name[k + 1..])
  {
    var rest := name[k + 1..];
    assert k != |name| - 1;
    assert forall i | 0 <= i < |rest| :: rest[i] == name[k + 1 + i];
  }

  lemma {:induction false} FirstDot(name: string, n: nat)
    requires n <= |name|
    requires !exists k :: 0 <= k < |name| && name[k] == '.' && forall i | 0 <= i < k :: name[i] != '.'
    ensures forall i | 0 <= i < n :: name[i] != '.'
  {
    if n > 0 {
      FirstDot(name, n - 1);
    }
  }

  lemma {:induction false} DottedValid(segments: seq<string>)
    requires segments != [] && forall s | s in segments :: Segment(s)
    ensures ValidName(Dotted(segments))
  {
    var a := segments[0];
    assert a in segments;
    if |segments| > 1 {
      DottedValid(segments[1..]);
      hide Dotted;
      JoinValid(a, Dotted(segments[1..]));
      assert Dotted(segments) == a + "." + Dotted(segments[1..]);
    } else {
      assert forall i | 0 <= i < |a| :: a[i] in a;
    }
  }

  lemma JoinValid(a: string, b: string)
    requires Segment(a) && ValidName(b)
    ensures ValidName(a + "." + b)
  {
    var n := a + "." + b;
    assert forall i | 0 <= i < |a| :: n[i] == a[i] && a[i] in a;
    assert n[|a|] == '.' && forall i | 0 <= i < |b| :: n[|a| + 1 + i] == b[i];
    forall i | 0 <= i < |n|
      ensures NameChar(n[i])
    {
      if i > |a| {
        assert n[i] == b[i - |a| - 1];
      }
    }
    forall i | 0 <= i < |n| - 1
      ensures !(n[i] == '.' && n[i + 1] == '.')
    {
      if i > |a| {
        assert n[i] == b[i - |a| - 1] && n[i + 1] == b[i - |a|];
      }
    }
  }

  /** Already listed, by locator or by content. */
  predicate Known(found: seq<File>, x: File) {
    exists k | 0 <= k < |found| :: found[k].locator == x.locator || found[k].text == x.text
  }

  function Admit(found: seq<File>, x: File): seq<File> { if Known(found, x) then found else found + [x] }

  /** The authorities left after the candidates `xs`. */
  function Authorities(found: seq<File>, xs: seq<File>): seq<File>
    decreases |xs|
  {
    if xs == [] then found else Authorities(Admit(found, xs[0]), xs[1..])
  }

  function Compatible(xs: seq<File>, compatible: string -> bool): seq<File> {
    if xs == [] then []
    else (if compatible(xs[0].text) then [xs[0]] else []) + Compatible(xs[1..], compatible)
  }

  function Flatten(roots: seq<seq<File>>): seq<File> { if roots == [] then [] else roots[0] + Flatten(roots[1..]) }

  /** Every candidate, in search order: the roots' compatible files, then the bundle's. */
  function Candidates(roots: seq<seq<File>>, bundle: Option<File>, compatible: string -> bool): seq<File> {
    Compatible(Flatten(roots), compatible) + if bundle.Some? then [bundle.value] else []
  }

  function Locators(xs: seq<File>): (r: seq<string>)
    ensures |r| == |xs|
  {
    seq(|xs|, i requires 0 <= i < |xs| => xs[i].locator)
  }

  function Decide(found: seq<File>): Resolution {
    if |found| == 0 then NotFound
    else if |found| == 1 then Resolved(found[0])
    else Conflict(Sort(Locators(found)))
  }

  function ResolutionOf(name: string, roots: seq<seq<File>>, bundle: Option<File>, compatible: string -> bool): Resolution {
    if ValidName(name) then Decide(Authorities([], Candidates(roots, bundle, compatible))) else NotFound
  }

  lemma {:induction false} AuthoritiesAppend(found: seq<File>, xs: seq<File>, ys: seq<File>)
    ensures Authorities(found, xs + ys) == Authorities(Authorities(found, xs), ys)
    decreases |xs|
  {
    if xs == [] {
      assert xs + ys == ys;
    } else {
      assert (xs + ys)[0] == xs[0] && (xs + ys)[1..] == xs[1..] + ys;
      AuthoritiesAppend(Admit(found, xs[0]), xs[1..], ys);
    }
  }

  lemma {:induction false} CompatibleAppend(xs: seq<File>, ys: seq<File>, compatible: string -> bool)
    ensures Compatible(xs + ys, compatible) == Compatible(xs, compatible) + Compatible(ys, compatible)
  {
    if xs == [] {
      assert xs + ys == ys;
    } else {
      assert (xs + ys)[0] == xs[0] && (xs + ys)[1..] == xs[1..] + ys;
      CompatibleAppend(xs[1..], ys, compatible);
      var head: seq<File> := if compatible(xs[0].text) then [xs[0]] else [];
      assert Compatible(xs, compatible) == head + Compatible(xs[1..], compatible);
      assert Compatible(xs + ys, compatible) == head + (Compatible(xs[1..], compatible) + Compatible(ys, compatible));
      assert head + (Compatible(xs[1..], compatible) + Compatible(ys, compatible)) == (head + Compatible(xs[1..], compatible)) + Compatible(ys, compatible);
    }
  }

  lemma {:induction false} FlattenUpTo(roots: seq<seq<File>>, k: nat)
    requires k < |roots|
    ensures Flatten(roots[..k + 1]) == Flatten(roots[..k]) + roots[k]
  {
    if k == 0 {
      assert roots[..1] == [roots[0]] && roots[..0] == [] && [roots[0]][1..] == [];
      assert Flatten([roots[0]]) == roots[0] + Flatten([]);
    } else {
      assert roots[..k + 1][1..] == roots[1..][..k] && roots[..k][1..] == roots[1..][..k - 1];
      FlattenUpTo(roots[1..], k - 1);
    }
  }

  lemma OneMore(found: seq<File>, xs: seq<File>, j: nat, compatible: string -> bool)
    requires j < |xs|
    ensures Authorities(found, Compatible(xs[..j + 1], compatible))
         == (if compatible(xs[j].text) then Admit(Authorities(found, Compatible(xs[..j], compatible)), xs[j])
             else Authorities(found, Compatible(xs[..j], compatible)))
  {
    assert xs[..j + 1] == xs[..j] + [xs[j]] && [xs[j]][1..] == [];
    CompatibleAppend(xs[..j], [xs[j]], compatible);
    assert Compatible([xs[j]], compatible) == (if compatible(xs[j].text) then [xs[j]] else []) + Compatible([], compatible);
    var more := Compatible([xs[j]], compatible);
    AuthoritiesAppend(found, Compatible(xs[..j], compatible), more);
    if compatible(xs[j].text) {
      assert more == [xs[j]] && more[1..] == [];
    }
  }

  /** One candidate against the authorities so far. */
  method Consider(found: seq<File>, x: File) returns (more: seq<File>)
    ensures more == Admit(found, x)
  {
    var known := false;
    for k := 0 to |found|
      invariant known <==> exists i :: 0 <= i < k && (found[i].locator == x.locator || found[i].text == x.text)
    {
      known := known || found[k].locator == x.locator || found[k].text == x.text;
    }
    more := if known then found else found + [x];
  }

  method ResolveDetailed(name: string, roots: seq<seq<File>>, bundle: Option<File>, compatible: string -> bool) returns (r: Resolution)
    ensures r == ResolutionOf(name, roots, bundle, compatible)
    ensures !ValidName(name) ==> r == NotFound
    ensures ValidName(name) ==> (r.NotFound? <==> forall x :: !Offered(roots, bundle, compatible, x))
    ensures ValidName(name) && OfferedOnce(roots, bundle, compatible) ==> Answers(r, roots, bundle, compatible)
  {
    if !ValidName(name) {
      return NotFound;
    }
    OutcomeMeans(name, roots, bundle, compatible);
    var found: seq<File> := [];
    assert Flatten(roots[..0]) == [];
    for i := 0 to |roots|
      invariant found == Authorities([], Compatible(Flatten(roots[..i]), compatible))
    {
      ghost var before := found;
      FlattenUpTo(roots, i);
      CompatibleAppend(Flatten(roots[..i]), roots[i], compatible);
      AuthoritiesAppend([], Compatible(Flatten(roots[..i]), compatible), Compatible(roots[i], compatible));
      for j := 0 to |roots[i]|
        invariant found == Authorities(before, Compatible(roots[i][..j], compatible))
      {
        OneMore(before, roots[i], j, compatible);
        if compatible(roots[i][j].text) {
          found := Consider(found, roots[i][j]);
        }
      }
      assert roots[i][..|roots[i]|] == roots[i];
    }
    assert roots[..|roots|] == roots;
    if bundle.Some? {
      AuthoritiesAppend([], Compatible(Flatten(roots), compatible), [bundle.value]);
      assert [bundle.value][1..] == [];
      found := Consider(found, bundle.value);
    } else {
      assert Compatible(Flatten(roots), compatible) + [] == Compatible(Flatten(roots), compatible);
    }
    r := Decide(found);
  }

  // ---------- What the outcome means ----------

  function Texts(xs: seq<File>): set<string> { set i | 0 <= i < |xs| :: xs[i].text }

  /** A locator names one content: the file map is fixed. */
  predicate OneTextPerLocator(xs: seq<File>) {
    forall i, j | 0 <= i < |xs| && 0 <= j < |xs| && xs[i].locator == xs[j].locator :: xs[i].text == xs[j].text
  }

  predicate DistinctTexts(xs: seq<File>) { forall i, j | 0 <= i < j < |xs| :: xs[i].text != xs[j].text }

  lemma {:induction false} AuthoritiesKeep(found: seq<File>, xs: seq<File>)
    requires OneTextPerLocator(found + xs) && DistinctTexts(found)
    ensures DistinctTexts(Authorities(found, xs))
    ensures Texts(Authorities(found, xs)) == Texts(found + xs)
    ensures forall x | x in Authorities(found, xs) :: x in found + xs
    decreases |xs|
  {
    if xs == [] {
      assert found + xs == found;
    } else {
      var more := Admit(found, xs[0]);
      var all := found + xs;
      AdmitKeeps(found, xs);
      AuthoritiesKeep(more, xs[1..]);
      assert forall x | x in more + xs[1..] :: x in all;
    }
  }

  lemma AdmitKeeps(found: seq<File>, xs: seq<File>)
    requires xs != [] && OneTextPerLocator(found + xs) && DistinctTexts(found)
    ensures var more := Admit(found, xs[0]);
            && DistinctTexts(more) && OneTextPerLocator(more + xs[1..]) && Texts(more + xs[1..]) == Texts(found + xs)
  {
    var more, all := Admit(found, xs[0]), found + xs;
    var next := more + xs[1..];
    assert all[|found|] == xs[0];
    if Known(found, xs[0]) {
      var k :| 0 <= k < |found| && (found[k].locator == xs[0].locator || found[k].text == xs[0].text);
      assert all[k] == found[k] && found[k].text == xs[0].text;
      forall i | 0 <= i < |next|
        ensures next[i] == all[if i < |found| then i else i + 1]
      {
      }
      SameTexts(all, next, |found|, k);
    } else {
      assert next == all;
    }
  }

  /** Dropping one file whose text another keeps leaves the texts alone. */
  lemma SameTexts(all: seq<File>, next: seq<File>, at: nat, keep: nat)
    requires at < |all| && keep < at && all[keep].text == all[at].text && |next| == |all| - 1
    requires forall i | 0 <= i < |next| :: next[i] == all[if i < at then i else i + 1]
    requires OneTextPerLocator(all)
    ensures Texts(next) == Texts(all) && OneTextPerLocator(next)
  {
    forall t
      ensures t in Texts(next) <==> t in Texts(all)
    {
      if t in Texts(all) {
        var i :| 0 <= i < |all| && all[i].text == t;
        var j := if i < at then i else if i == at then keep else i - 1;
        assert next[j].text == t;
      }
      if t in Texts(next) {
        var i :| 0 <= i < |next| && next[i].text == t;
        assert all[if i < at then i else i + 1].text == t;
      }
    }
  }

  lemma {:induction false} CountTexts(xs: seq<File>)
    requires DistinctTexts(xs)
    ensures |Texts(xs)| == |xs|
  {
    if xs != [] {
      var k := |xs| - 1;
      CountTexts(xs[..k]);
      assert Texts(xs) == Texts(xs[..k]) + {xs[k].text};
      assert xs[k].text !in Texts(xs[..k]);
    }
  }

  /** `x` is a compatible file under some root, or the bundle's file. */
  ghost predicate Offered(roots: seq<seq<File>>, bundle: Option<File>, compatible: string -> bool, x: File) {
    || (exists r | r in roots :: x in r && compatible(x.text))
    || bundle == Some(x)
  }

  ghost predicate OfferedOnce(roots: seq<seq<File>>, bundle: Option<File>, compatible: string -> bool) {
    forall x, y | Offered(roots, bundle, compatible, x) && Offered(roots, bundle, compatible, y) && x.locator == y.locator ::
      x.text == y.text
  }

  /** The outcome by the distinct contents on offer: none, one, or a conflict that
      lists one locator for each, sorted. */
  ghost predicate Answers(r: Resolution, roots: seq<seq<File>>, bundle: Option<File>, compatible: string -> bool) {
    match r
    case NotFound => forall x :: !Offered(roots, bundle, compatible, x)
    case Resolved(file) =>
      && Offered(roots, bundle, compatible, file)
      && forall x | Offered(roots, bundle, compatible, x) :: x.text == file.text
    case Conflict(locators) => Sorted(locators) && exists xs :: OneForEach(xs, locators, roots, bundle, compatible)
  }

  /** `xs` are two files on offer or more, one for every content, and `locators` are theirs. */
  ghost predicate OneForEach(xs: seq<File>, locators: seq<string>, roots: seq<seq<File>>, bundle: Option<File>, compatible: string -> bool) {
    && |xs| >= 2 && DistinctTexts(xs) && multiset(Locators(xs)) == multiset(locators)
    && (forall x | x in xs :: Offered(roots, bundle, compatible, x))
    && forall x | Offered(roots, bundle, compatible, x) :: exists y | y in xs :: y.text == x.text
  }

  /** The search considers the files on offer, and no others. */
  lemma CandidatesAre(roots: seq<seq<File>>, bundle: Option<File>, compatible: string -> bool, x: File)
    ensures x in Candidates(roots, bundle, compatible) <==>
              (exists r | r in roots :: x in r && compatible(x.text)) || bundle == Some(x)
  {
    hide Flatten, Compatible;
    InFlatten(roots, x);
    InCompatible(Flatten(roots), compatible, x);
  }

  /** What resolution answers, for every name, roots and bundle. */
  lemma OutcomeMeans(name: string, roots: seq<seq<File>>, bundle: Option<File>, compatible: string -> bool)
    ensures var r := ResolutionOf(name, roots, bundle, compatible);
            && (!ValidName(name) ==> r == NotFound)
            && (ValidName(name) ==> (r.NotFound? <==> forall x :: !Offered(roots, bundle, compatible, x)))
            && (ValidName(name) && OfferedOnce(roots, bundle, compatible) ==> Answers(r, roots, bundle, compatible))
  {
    var all := Candidates(roots, bundle, compatible);
    forall x
      ensures x in all <==> Offered(roots, bundle, compatible, x)
    {
      CandidatesAre(roots, bundle, compatible, x);
    }
    hide ValidName, Candidates, Offered;
    if ValidName(name) {
      var found := Authorities([], all);
      AuthoritiesAny([], all);
      if all == [] {
        assert found == [];
      } else {
        assert all[0] in all;
      }
      if OfferedOnce(roots, bundle, compatible) {
        assert OneTextPerLocator(all) by {
          forall i, j | 0 <= i < |all| && 0 <= j < |all| && all[i].locator == all[j].locator
            ensures all[i].text == all[j].text
          {
            assert all[i] in all && all[j] in all;
          }
        }
        assert [] + all == all;
        AuthoritiesKeep([], all);
        OutcomeFound(found, all, roots, bundle, compatible);
      }
    }
  }

  lemma {:induction false} AuthoritiesAny(found: seq<File>, xs: seq<File>)
    ensures found <= Authorities(found, xs) && (xs != [] ==> Authorities(found, xs) != [])
    decreases |xs|
  {
    if xs != [] {
      AuthoritiesAny(Admit(found, xs[0]), xs[1..]);
    }
  }

  lemma OutcomeFound(found: seq<File>, all: seq<File>, roots: seq<seq<File>>, bundle: Option<File>, compatible: string -> bool)
    requires DistinctTexts(found) && Texts(found) == Texts(all)
    requires forall x | x in found :: x in all
    requires forall x :: x in all <==> Offered(roots, bundle, compatible, x)
    ensures Answers(Decide(found), roots, bundle, compatible)
  {
    hide Offered, Sort;
    forall x | Offered(roots, bundle, compatible, x)
      ensures exists y | y in found :: y.text == x.text
    {
      assert x.text in Texts(all);
      var i :| 0 <= i < |found| && found[i].text == x.text;
      assert found[i] in found;
    }
    if |found| > 1 {
      SortSorts(Locators(found));
      assert OneForEach(found, Sort(Locators(found)), roots, bundle, compatible);
    } else if |found| == 1 {
      assert found[0] in found;
    }
  }

  /** The outcome by the number of distinct contents among the candidates. */
  lemma OutcomeCounts(name: string, roots: seq<seq<File>>, bundle: Option<File>, compatible: string -> bool)
    requires ValidName(name) && OneTextPerLocator(Candidates(roots, bundle, compatible))
    ensures var all, r := Candidates(roots, bundle, compatible), ResolutionOf(name, roots, bundle, compatible);
            && (r.NotFound? <==> |Texts(all)| == 0)
            && (r.Resolved? <==> |Texts(all)| == 1)
            && (r.Resolved? ==> r.file in all && Texts(all) == {r.file.text})
            && (r.Conflict? ==> |r.locators| == |Texts(all)|)
  {
    var all := Candidates(roots, bundle, compatible);
    var found := Authorities([], all);
    assert [] + all == all;
    hide Candidates, Authorities;
    AuthoritiesKeep([], all);
    CountTexts(found);
    if |found| == 1 {
      assert Texts(found) == {found[0].text};
    }
  }

  // ---------- Root order ----------

  lemma {:induction false} InFlatten(roots: seq<seq<File>>, x: File)
    ensures x in Flatten(roots) <==> exists r | r in roots :: x in r
  {
    if roots != [] {
      InFlatten(roots[1..], x);
      assert roots == [roots[0]] + roots[1..];
    }
  }

  lemma {:induction false} InCompatible(xs: seq<File>, compatible: string -> bool, x: File)
    ensures x in Compatible(xs, compatible) <==> x in xs && compatible(x.text)
  {
    if xs != [] {
      InCompatible(xs[1..], compatible, x);
    }
  }

  lemma SameCandidates(a: seq<seq<File>>, b: seq<seq<File>>, bundle: Option<File>, compatible: string -> bool, x: File)
    requires multiset(a) == multiset(b)
    ensures x in Candidates(a, bundle, compatible) <==> x in Candidates(b, bundle, compatible)
  {
    InFlatten(a, x);
    InFlatten(b, x);
    InCompatible(Flatten(a), compatible, x);
    InCompatible(Flatten(b), compatible, x);
    assert forall r :: r in a <==> r in multiset(a);
    assert forall r :: r in b <==> r in multiset(b);
  }

  lemma TextsOfMembers(xs: seq<File>, ys: seq<File>)
    requires forall x :: x in xs <==> x in ys
    ensures Texts(xs) == Texts(ys)
    ensures OneTextPerLocator(xs) ==> OneTextPerLocator(ys)
  {
    forall t
      ensures t in Texts(xs) <==> t in Texts(ys)
    {
      if t in Texts(xs) {
        var i :| 0 <= i < |xs| && xs[i].text == t;
        assert xs[i] in ys;
      }
      if t in Texts(ys) {
        var i :| 0 <= i < |ys| && ys[i].text == t;
        assert ys[i] in xs;
      }
    }
    if OneTextPerLocator(xs) {
      forall i, j | 0 <= i < |ys| && 0 <= j < |ys| && ys[i].locator == ys[j].locator
        ensures ys[i].text == ys[j].text
      {
        assert ys[i] in xs && ys[j] in xs;
      }
    }
  }

  /** Any order of the roots gives the same class of outcome, the same content when
      one is resolved, and as many locators when they conflict. */
  lemma RootOrderIrrelevant(name: string, a: seq<seq<File>>, b: seq<seq<File>>, bundle: Option<File>, compatible: string -> bool)
    requires multiset(a) == multiset(b) && OfferedOnce(a, bundle, compatible)
    ensures var r, s := ResolutionOf(name, a, bundle, compatible), ResolutionOf(name, b, bundle, compatible);
            && (r.NotFound? <==> s.NotFound?) && (r.Resolved? <==> s.Resolved?) && (r.Conflict? <==> s.Conflict?)
            && (r.Resolved? ==> r.file.text == s.file.text)
            && (r.Conflict? ==> |r.locators| == |s.locators|)
  {
    if ValidName(name) {
      var xs, ys := Candidates(a, bundle, compatible), Candidates(b, bundle, compatible);
      forall x
        ensures x in xs <==> x in ys
      {
        SameCandidates(a, b, bundle, compatible, x);
      }
      assert OneTextPerLocator(xs) by {
        forall x
          ensures x in xs <==> Offered(a, bundle, compatible, x)
        {
          CandidatesAre(a, bundle, compatible, x);
        }
        hide Candidates, Offered;
        assert forall i | 0 <= i < |xs| :: xs[i] in xs && Offered(a, bundle, compatible, xs[i]);
      }
      hide Candidates, ResolutionOf;
      TextsOfMembers(xs, ys);
      OutcomeCounts(name, a, bundle, compatible);
      OutcomeCounts(name, b, bundle, compatible);
      var r, s := ResolutionOf(name, a, bundle, compatible), ResolutionOf(name, b, bundle, compatible);
      if r.Resolved? {
        assert r.file.text in Texts(xs) && s.file.text in Texts(ys);
      }
    }
  }

  /** Which of several locators of one content a conflict lists does depend on it:
      swapping the roots of `x` and `y` swaps the locator that is listed. */
  lemma ConflictNamesTheFirst(x: File, y: File, z: File, all: string -> bool)
    requires x.text == y.text != z.text && z.locator !in [x.locator, y.locator]
    requires LexLe(x.locator, z.locator) && LexLe(y.locator, z.locator) && all(x.text) && all(z.text)
    ensures ResolutionOf("m", [[x], [y], [z]], None, all) == Conflict([x.locator, z.locator])
    ensures ResolutionOf("m", [[y], [x], [z]], None, all) == Conflict([y.locator, z.locator])
  {
    hide LexLe, Sort, Candidates, Authorities, Known, Admit, ResolutionOf;
    NameM();
    ThreeRoots(x, y, z, all);
    ThreeRoots(y, x, z, all);
  }

  lemma NameM()
    ensures ValidName("m")
  {
  }

  lemma FlattenCons(r: seq<File>, rest: seq<seq<File>>)
    ensures Flatten([r] + rest) == r + Flatten(rest)
  {
    assert ([r] + rest)[1..] == rest;
  }

  lemma CompatibleAll(xs: seq<File>, compatible: string -> bool)
    requires forall x | x in xs :: compatible(x.text)
    ensures Compatible(xs, compatible) == xs
  {
    if xs != [] {
      CompatibleAll(xs[1..], compatible);
    }
  }

  lemma AuthoritiesCons(found: seq<File>, x: File, rest: seq<File>)
    ensures Authorities(found, [x] + rest) == Authorities(Admit(found, x), rest)
  {
    assert ([x] + rest)[1..] == rest;
  }

  lemma SortedPair(a: string, b: string)
    requires LexLe(a, b)
    ensures Sort([a, b]) == [a, b]
  {
    assert [a, b][1..] == [b] && [b][1..] == [];
    assert Sort([b]) == Insert(b, []);
  }

  lemma ThreeRoots(x: File, y: File, z: File, all: string -> bool)
    requires x.text == y.text && z.text != x.text && z.locator != x.locator && LexLe(x.locator, z.locator)
    requires all(x.text) && all(z.text) && ValidName("m")
    ensures ResolutionOf("m", [[x], [y], [z]], None, all) == Conflict([x.locator, z.locator])
    ensures Candidates([[x], [y], [z]], None, all) == [x, y, z]
  {
    hide ValidName, LexLe, Sort, Flatten, Compatible, Authorities;
    FlattenCons([x], [[y], [z]]);
    FlattenCons([y], [[z]]);
    FlattenCons([z], []);
    assert [[x]] + [[y], [z]] == [[x], [y], [z]] && [[y]] + [[z]] == [[y], [z]] && [[z]] + [] == [[z]];
    FlattenNone();
    assert [x] + ([y] + ([z] + [])) == [x, y, z];
    CompatibleAll([x, y, z], all);
    assert [x, y, z] + [] == [x, y, z];
    assert Admit([], x) == [x];
    assert [x][0].text == y.text && Admit([x], y) == [x];
    assert Admit([x], z) == [x, z];
    AuthoritiesCons([], x, [y, z]);
    AuthoritiesCons([x], y, [z]);
    AuthoritiesCons([x], z, []);
    assert [x] + [y, z] == [x, y, z] && [y] + [z] == [y, z] && [z] + [] == [z];
    AuthoritiesNone([x, z]);
    assert Locators([x, z]) == [x.locator, z.locator];
    SortedPair(x.locator, z.locator);
  }

  lemma FlattenNone()
    ensures Flatten([]) == []
  {
  }

  lemma AuthoritiesNone(found: seq<File>)
    ensures Authorities(found, []) == found
  {
  }
}
