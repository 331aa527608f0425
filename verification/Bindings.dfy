/** The host binding generator: fresh parameter names, descriptors joined by
    colons, and the generated Rust codec. */
module Bindings {
  import opened Options
  import opened Words
  import opened Emit
  import opened Naming
  import opened Symbols

  // ---------- Fresh names ----------

  predicate WordChar(c: char) { 'a' <= c <= 'z' || 'A' <= c <= 'Z' || '0' <= c <= '9' || c == '_' }

  function Cleaned(s: string): (r: string)
    ensures |r| == |s|
  {
    seq(|s|, i requires 0 <= i < |s| => if WordChar(s[i]) then s[i] else '_')
  }

  /** `keyword` says which names the host language reserves. */
  function SafeIdentifier(s: string, keyword: string -> bool): string {
    var v := Cleaned(s);
    if v == "" || '0' <= v[0] <= '9' || keyword(v) then "_" + v else v
  }

  function BaseName(names: seq<string>, index: nat, keyword: string -> bool): string {
    if index < |names| && names[index] != "" then SafeIdentifier(names[index], keyword) else "input_" + Decimal(index + 1)
  }

  /** An identifier of the host languages. */
  predicate Legal(s: string) {
    && s != "" && !('0' <= s[0] <= '9')
    && forall i | 0 <= i < |s| :: s[i] == '_' || '0' <= s[i] <= '9' || 'A' <= s[i] <= 'Z' || 'a' <= s[i] <= 'z'
  }

  ghost predicate NoKeywordLeads(keyword: string -> bool) { forall k | keyword(k) :: k != "" && k[0] != '_' }

  /** The base for a submitted name: the name itself if it can be used; otherwise its
      characters that are not legal become `_`, and one more `_` goes in front where
      that still starts with a digit or is a keyword. */
  predicate Sanitized(base: string, s: string, keyword: string -> bool) {
    && Legal(base)
    && (Legal(s) && !keyword(s) ==> base == s)
    && |s| <= |base| <= |s| + 1
    && var n := |base| - |s|;
       && (forall i | 0 <= i < |s| :: base[n + i] == if Legal("_" + [s[i]]) then s[i] else '_')
       && (n == 1 ==> base[0] == '_' && s != "" && ('0' <= base[1] <= '9' || keyword(base[1..])))
       && (n == 0 ==> !keyword(base))
  }

  /** What a base is, with and without a submitted name. */
  lemma BaseMeans(names: seq<string>, index: nat, keyword: string -> bool)
    ensures var b := BaseName(names, index, keyword);
            && Legal(b)
            && (index < |names| && names[index] != "" ==> Sanitized(b, names[index], keyword) && (NoKeywordLeads(keyword) ==> !keyword(b)))
            && (index >= |names| || names[index] == "" ==> b[..6] == "input_" && Numbers(b[6..], index + 1))
  {
    if index < |names| && names[index] != "" {
      SafeMeans(names[index], keyword);
    } else {
      DecimalMeans(index + 1);
      var b, d := BaseName(names, index, keyword), Decimal(index + 1);
      assert b[6..] == d;
      assert forall i | 6 <= i < |b| :: b[i] == d[i - 6];
    }
  }

  predicate Numbers(s: string, n: nat) { (forall i | 0 <= i < |s| :: IsDigit(s[i])) && NumberOf(s) == n && s != "" && (s[0] == '0' ==> n == 0) }

  lemma SafeMeans(s: string, keyword: string -> bool)
    requires s != ""
    ensures Sanitized(SafeIdentifier(s, keyword), s, keyword)
    ensures NoKeywordLeads(keyword) ==> !keyword(SafeIdentifier(s, keyword))
  {
    var v, b := Cleaned(s), SafeIdentifier(s, keyword);
    forall i | 0 <= i < |s|
      ensures v[i] == if Legal("_" + [s[i]]) then s[i] else '_'
    {
      var u := "_" + [s[i]];
      assert u[0] == '_' && u[1] == s[i];
    }
    if |b| > |s| {
      assert b[1..] == v;
    }
    if Legal(s) {
      assert v == s;
    }
  }

  /** The `k`-th candidate for a base: itself, then `_2`, `_3` and so on. */
  function Candidate(base: string, k: nat): string { if k < 2 then base else base + "_" + Decimal(k) }

  /** The first candidate is the base, a later one the base, `_` and its number. */
  lemma CandidateMeans(base: string, k: nat)
    requires k >= 1
    ensures var c := Candidate(base, k);
            && (k == 1 ==> c == base)
            && (k >= 2 ==> |c| > |base| + 1 && c[..|base|] == base && c[|base|] == '_' && Numbers(c[|base| + 1..], k))
    ensures Legal(base) ==> Legal(Candidate(base, k))
  {
    var c, d := Candidate(base, k), Decimal(k);
    DecimalMeans(k);
    if k >= 2 {
      assert c[|base| + 1..] == d && c[..|base|] == base;
      assert forall i | |base| < i < |c| :: c[i] == if i == |base| then '_' else d[i - |base| - 1];
    }
  }

  lemma CandidateInjective(base: string, j: nat, k: nat)
    requires Candidate(base, j) == Candidate(base, k) && 1 <= j && 1 <= k
    ensures j == k
  {
    if j >= 2 && k >= 2 {
      assert Decimal(j) == Candidate(base, j)[|base| + 1..] && Decimal(k) == Candidate(base, k)[|base| + 1..];
      DecimalInjective(j, k);
    } else {
      assert forall n: nat | n >= 2 :: |Candidate(base, n)| > |base|;
    }
  }

  /** The first `n` candidates. */
  function Tried(base: string, n: nat): (r: set<string>) {
    if n == 0 then {} else Tried(base, n - 1) + {Candidate(base, n)}
  }

  lemma {:induction false} TriedOnly(base: string, n: nat, x: string) returns (k: nat)
    requires x in Tried(base, n)
    ensures 1 <= k <= n && x == Candidate(base, k)
  {
    hide Candidate;
    if x == Candidate(base, n) {
      k := n;
    } else {
      k := TriedOnly(base, n - 1, x);
    }
  }

  lemma {:induction false} TriedSize(base: string, n: nat)
    ensures |Tried(base, n)| == n
  {
    hide Candidate;
    if n > 0 {
      TriedSize(base, n - 1);
      if Candidate(base, n) in Tried(base, n - 1) {
        var k := TriedOnly(base, n - 1, Candidate(base, n));
        CandidateInjective(base, n, k);
      }
    }
  }

  /** `n` taken candidates are `n` taken names. */
  lemma TriedUsed(base: string, n: nat, used: set<string>)
    requires forall k: nat | 1 <= k <= n :: Candidate(base, k) in used
    ensures n <= |used|
  {
    TriedSize(base, n);
    forall x | x in Tried(base, n)
      ensures x in used
    {
      var k := TriedOnly(base, n, x);
    }
    SubsetSize(Tried(base, n), used);
  }

  lemma {:induction false} SubsetSize(a: set<string>, b: set<string>)
    requires a <= b
    ensures |a| <= |b|
  {
    if a != {} {
      var x :| x in a;
      SubsetSize(a - {x}, b - {x});
    }
  }

  /** The name is the first candidate not used yet. */
  predicate FirstFree(name: string, base: string, k: nat, used: set<string>) {
    k >= 1 && name == Candidate(base, k) && name !in used && forall j: nat | 1 <= j < k :: Candidate(base, j) in used
  }

  /** The suffix search stops: distinct suffixes give distinct names, and only
      finitely many are taken. */
  method FreshName(base: string, used: set<string>) returns (name: string, ghost k: nat)
    ensures FirstFree(name, base, k, used)
  {
    name, k := base, 1;
    var suffix := 2;
    while name in used
      invariant suffix == k + 1 && k >= 1 && name == Candidate(base, k)
      invariant forall j: nat | 1 <= j < k :: Candidate(base, j) in used
      invariant k <= |used| + 1
      decreases |used| + 1 - k
    {
      assert forall j: nat | 1 <= j <= k :: Candidate(base, j) in used;
      TriedUsed(base, k, used);
      name := base + "_" + Decimal(suffix);
      suffix := suffix + 1;
      k := k + 1;
    }
  }

  function Elements(xs: seq<string>): set<string> { set x | x in xs }

  ghost predicate NoUnderscore(keyword: string -> bool) { forall k | keyword(k) :: k != "" && forall i | 0 <= i < |k| :: k[i] != '_' }

  /** No name is a keyword if keywords hold no underscore. */
  lemma FreshLegal(result: seq<string>, i: nat, names: seq<string>, keyword: string -> bool)
    requires i < |result| && FreshAt(result, i, BaseName(names, i, keyword))
    ensures Legal(result[i]) && (NoUnderscore(keyword) ==> !keyword(result[i]))
  {
    var base := BaseName(names, i, keyword);
    BaseMeans(names, i, keyword);
    hide Legal, Sanitized, Candidate, Decimal, NumberOf, Elements, SafeIdentifier;
    var k: nat :| FirstFree(result[i], base, k, Elements(result[..i]));
    CandidateMeans(base, k);
    if k >= 2 {
      assert result[i][|base|] == '_';
    } else if i >= |names| || names[i] == "" {
      assert base[5] == '_';
    }
  }

  ghost predicate FreshAt(result: seq<string>, i: nat, base: string)
    requires i < |result|
  {
    exists k: nat :: FirstFree(result[i], base, k, Elements(result[..i]))
  }

  /** Pairwise distinct names, each the first candidate that no earlier input took. */
  method InputIdentifiers(names: seq<string>, count: nat, keyword: string -> bool) returns (result: seq<string>)
    ensures |result| == count && Distinct(result)
    ensures forall i | 0 <= i < count :: FreshAt(result, i, BaseName(names, i, keyword))
    ensures forall i | 0 <= i < count :: Legal(result[i]) && (NoUnderscore(keyword) ==> !keyword(result[i]))
  {
    hide BaseName, FirstFree, Legal, NoUnderscore;
    var used: set<string> := {};
    result := [];
    for index := 0 to count
      invariant |result| == index && Distinct(result) && used == Elements(result)
      invariant forall i | 0 <= i < index :: FreshAt(result, i, BaseName(names, i, keyword))
    {
      ghost var before := result;
      var candidate, k := FreshName(BaseName(names, index, keyword), used);
      used := used + {candidate};
      result := result + [candidate];
      assert result[..index] == before;
      forall i | 0 <= i < index + 1
        ensures FreshAt(result, i, BaseName(names, i, keyword))
      {
        if i < index {
          assert result[..i] == before[..i] && result[i] == before[i];
          assert FreshAt(before, i, BaseName(names, i, keyword));
        } else {
          assert result[..i] == before;
          assert FirstFree(result[i], BaseName(names, i, keyword), k, Elements(result[..i]));
        }
      }
    }
    forall i | 0 <= i < count
      ensures Legal(result[i]) && (NoUnderscore(keyword) ==> !keyword(result[i]))
    {
      FreshLegal(result, i, names, keyword);
    }
  }

  // ---------- Descriptors ----------

  datatype Contract =
    | Bool
    | Int(signed: bool)
    | Byte
    | Finite(name: string)
    | Record(name: string)
    | View(element: Contract, capacity: Option<nat>)
    | Sequence(element: Contract, bound: Option<nat>)
    | Vector(element: Contract, lanes: nat)
    | Mask(lanes: nat)
    | Opaque

  function Bound(n: Option<nat>): string { if n.Some? then Decimal(n.value) else "" }

  function Descriptor(c: Contract): string
    decreases c
  {
    match c
    case Bool => "bool"
    case Int(signed) => if signed then "int" else "uint"
    case Byte => "byte"
    case Finite(name) => "finite:" + name
    case Record(name) => "record:" + name
    case View(e, n) => "view:" + Descriptor(e) + ":" + Bound(n)
    case Sequence(e, n) => "sequence:" + Descriptor(e) + ":" + Bound(n)
    case Vector(e, n) => "vector:" + Descriptor(e) + ":" + Decimal(n)
    case Mask(n) => "mask:" + Decimal(n)
    case Opaque => "scalar"
  }

  function Split(s: string): (r: seq<string>)
    ensures |r| > 0
  {
    if s == "" then [""]
    else
      var rest := Split(s[1..]);
      if s[0] == ':' then [""] + rest else [[s[0]] + rest[0]] + rest[1..]
  }

  function Join(parts: seq<string>): string {
    if parts == [] then "" else if |parts| == 1 then parts[0] else parts[0] + ":" + Join(parts[1..])
  }

  lemma {:induction false} JoinSplit(s: string)
    ensures Join(Split(s)) == s
  {
    if s != "" {
      JoinSplit(s[1..]);
      var rest := Split(s[1..]);
      if s[0] == ':' {
        assert ([""] + rest)[1..] == rest;
        assert "" + ":" + Join(rest) == s;
      } else {
        var parts := [[s[0]] + rest[0]] + rest[1..];
        assert parts[1..] == rest[1..] && parts[0] == [s[0]] + rest[0];
        if |rest| > 1 {
          assert Join(rest) == rest[0] + ":" + Join(rest[1..]);
          assert [s[0]] + rest[0] + ":" + Join(rest[1..]) == [s[0]] + (rest[0] + ":" + Join(rest[1..]));
        }
      }
    }
  }

  /** One more character in front of the parts. */
  function Front(c: char, parts: seq<string>): seq<string>
    requires parts != []
  {
    if c == ':' then [""] + parts else [[c] + parts[0]] + parts[1..]
  }

  lemma SplitCons(c: char, s: string)
    ensures Split([c] + s) == Front(c, Split(s))
  {
    assert ([c] + s)[1..] == s && ([c] + s)[0] == c;
  }

  lemma FrontAppend(c: char, rest: seq<string>, more: seq<string>)
    requires rest != []
    ensures Front(c, rest + more) == Front(c, rest) + more
  {
    assert (rest + more)[0] == rest[0] && (rest + more)[1..] == rest[1..] + more;
  }

  lemma {:induction false} SplitAppend(a: string, b: string)
    ensures Split(a + ":" + b) == Split(a) + Split(b)
  {
    if a == "" {
      SplitCons(':', b);
      assert a + ":" + b == [':'] + b;
    } else {
      hide Split, Front;
      SplitAppend(a[1..], b);
      SplitCons(a[0], a[1..]);
      SplitCons(a[0], a[1..] + ":" + b);
      assert a == [a[0]] + a[1..] && a + ":" + b == [a[0]] + (a[1..] + ":" + b);
      FrontAppend(a[0], Split(a[1..]), Split(b));
    }
  }

  lemma {:induction false} SplitPlain(s: string)
    requires NoColon(s)
    ensures Split(s) == [s]
  {
    if s != "" {
      SplitPlain(s[1..]);
      assert s[0] != ':' && [s[0]] + s[1..] == s;
    }
  }

  /** `":".join(descriptor.split(":")[1:-1])` */
  function Element(d: string): string {
    var parts := Split(d);
    if |parts| < 2 then "" else Join(parts[1..|parts| - 1])
  }

  /** The element's descriptor is recovered, whatever colons it contains. */
  lemma ElementRecovered(prefix: string, element: string, bound: string)
    requires NoColon(prefix) && NoColon(bound)
    ensures Element(prefix + ":" + element + ":" + bound) == element
  {
    var d := prefix + ":" + element + ":" + bound;
    SplitAppend(prefix + ":" + element, bound);
    SplitAppend(prefix, element);
    SplitPlain(prefix);
    SplitPlain(bound);
    JoinSplit(element);
    assert Split(d) == [prefix] + Split(element) + [bound];
    assert Split(d)[1..|Split(d)| - 1] == Split(element);
  }

  // ---------- The codec ----------

  datatype Json = Null | Flag(b: bool) | Number(n: int) | Text(s: string) | Array(items: seq<Json>) | Object(fields: seq<Member>)

  datatype Member = Member(key: string, value: Json)

  /** A value of a generated Rust type. */
  datatype Host =
    | HBool(b: bool)
    | HNumber(n: int)
    | HVec(items: seq<Host>)
    | HMask(lanes: seq<bool>)
    | HEnum(variant: nat)
    | HStruct(values: seq<Host>)
    | HJson(json: Json)

  datatype Field = Field(name: string, contract: Contract)

  /** The generated enums, by variant names in order, and structs, by fields in order. */
  datatype Types = Types(finites: map<string, seq<string>>, records: map<string, seq<Field>>)

  function Get(fields: seq<Member>, key: string): Option<Json> {
    if fields == [] then None else if fields[0].key == key then Some(fields[0].value) else Get(fields[1..], key)
  }

  function Wrap1(kind: string, key: string, value: Json): Json { Object([Member(kind, Object([Member(key, value)]))]) }

  function UintJson(n: int): Json {
    Object([Member("integer", Object([Member("value", Number(n)), Member("type", Object([Member("bits", Number(64)), Member("signed", Flag(false))]))]))])
  }

  predicate IsList(d: string) { "view:" <= d || "sequence:" <= d || "vector:" <= d }

  function AfterColon(d: string): string {
    if d == "" then "" else if d[0] == ':' then d[1..] else AfterColon(d[1..])
  }

  function Flags(lanes: seq<bool>): (r: seq<Json>)
    ensures |r| == |lanes|
  {
    seq(|lanes|, i requires 0 <= i < |lanes| => Flag(lanes[i]))
  }

  /** What the generated encode expression for `d` computes. */
  function Encode(types: Types, d: string, h: Host): Json
    decreases h
  {
    if d == "bool" then if h.HBool? then Wrap1("boolean", "value", Flag(h.b)) else Null
    else if d == "int" then if h.HNumber? then Wrap1("integer", "value", Number(h.n)) else Null
    else if d == "uint" then if h.HNumber? then UintJson(h.n) else Null
    else if d == "byte" then if h.HNumber? then Wrap1("byte", "value", Number(h.n)) else Null
    else if "finite:" <= d then
      if h.HEnum? && AfterColon(d) in types.finites && h.variant < |types.finites[AfterColon(d)]| then
        Object([Member("finite", Object([Member("type", Text(AfterColon(d))), Member("variant", Text(types.finites[AfterColon(d)][h.variant]))]))])
      else Null
    else if "record:" <= d then
      if h.HStruct? && AfterColon(d) in types.records && |h.values| == |types.records[AfterColon(d)]| then
        var fields := types.records[AfterColon(d)];
        Object([Member("record", Object([Member("type", Text(AfterColon(d))),
          Member("fields", Object(seq(|fields|, i requires 0 <= i < |fields| => Member(fields[i].name, Encode(types, Descriptor(fields[i].contract), h.values[i])))))]))])
      else Null
    else if IsList(d) then
      if h.HVec? then Wrap1("sequence", "values", Array(seq(|h.items|, i requires 0 <= i < |h.items| => Encode(types, Element(d), h.items[i])))) else Null
    else if "mask:" <= d then if h.HMask? then Wrap1("mask", "lanes", Array(Flags(h.lanes))) else Null
    else if h.HJson? then h.json else Null
  }

  /** `value.get(kind).get(key)`, both objects. */
  function Inner(j: Json, kind: string, key: string): Option<Json> {
    if !j.Object? then None
    else
      var o := Get(j.fields, kind);
      if o.None? || !o.value.Object? then None else Get(o.value.fields, key)
  }

  function DecodeNumber(v: Option<Json>, lo: int, hi: int): Option<Host> {
    if v.Some? && v.value.Number? && lo <= v.value.n <= hi then Some(HNumber(v.value.n)) else None
  }

  function DecodeUint(j: Json): Option<Host> {
    var ty := Inner(j, "integer", "type");
    if ty.None? || !ty.value.Object? then None
    else if Get(ty.value.fields, "bits") != Some(Number(64)) || Get(ty.value.fields, "signed") != Some(Flag(false)) then None
    else DecodeNumber(Inner(j, "integer", "value"), 0, TWO_64 - 1)
  }

  function IndexOf(xs: seq<string>, x: string): Option<nat> {
    if xs == [] then None
    else if xs[0] == x then Some(0)
    else
      var r := IndexOf(xs[1..], x);
      if r.Some? then Some(r.value + 1) else None
  }

  /** A full variant identity, when present, is read by its last segment. */
  function LastSegment(s: string): string
  {
    if |s| < 2 then s
    else if s[0] == ':' && s[1] == ':' && !Contains(s[1..]) then s[2..]
    else if Contains(s[1..]) then LastSegment(s[1..]) else s
  }

  predicate Contains(s: string) { exists i :: 0 <= i < |s| - 1 && s[i] == ':' && s[i + 1] == ':' }

  function FiniteVariant(j: Json): Option<string> {
    var identity := Inner(j, "finite", "variant_identity");
    if identity.Some? && identity.value.Text? then Some(LastSegment(identity.value.s))
    else
      var v := Inner(j, "finite", "variant");
      if v.Some? && v.value.Text? then Some(v.value.s) else None
  }

  lemma ContainsStep(s: string)
    requires |s| >= 2
    ensures Contains(s) <==> (s[0] == ':' && s[1] == ':') || Contains(s[1..])
  {
    if i :| 0 <= i < |s| - 1 && s[i] == ':' && s[i + 1] == ':' {
      if i > 0 {
        assert s[1..][i - 1] == ':' && s[1..][i] == ':';
      }
    }
    if i :| 0 <= i < |s[1..]| - 1 && s[1..][i] == ':' && s[1..][i + 1] == ':' {
      assert s[i + 1] == ':' && s[i + 2] == ':';
    }
  }

  /** The last segment is what follows the last `::`, or everything without one. */
  lemma {:induction false} LastSegmentMeans(s: string) returns (p: string)
    ensures var t := LastSegment(s);
            && !Contains(t)
            && (!Contains(s) ==> t == s)
            && (Contains(s) ==> s == p + "::" + t && (t == "" || t[0] != ':'))
    decreases |s|
  {
    p := "";
    if |s| >= 2 {
      ContainsStep(s);
      if Contains(s[1..]) {
        p := LastSegmentMeans(s[1..]);
        p := [s[0]] + p;
      } else if |s| >= 3 {
        ContainsStep(s[1..]);
        assert s[1..][1..] == s[2..] && s == [s[0]] + ([s[1]] + s[2..]);
      }
    }
  }

  /** A later `::` lies in the tail, or overlaps the earlier one. */
  lemma LaterSeparator(p: string, t: string, q: string, u: string)
    requires p + "::" + t == q + "::" + u && |p| < |q|
    ensures Contains(t) || (t != "" && t[0] == ':')
  {
    var s := p + "::" + t;
    assert s == q + "::" + u;
    assert s[|q|] == ':' && s[|q| + 1] == ':';
    assert t == s[|p| + 2..];
    if |q| == |p| + 1 {
      assert t[0] == s[|p| + 2];
    } else {
      var k := |q| - |p| - 2;
      assert t[k] == s[|q|] && t[k + 1] == s[|q| + 1];
    }
  }

  /** A name after `::` is read back from a full identity. */
  lemma IdentitySegment(prefix: string, name: string)
    requires !Contains(name) && (name == "" || name[0] != ':')
    ensures LastSegment(prefix + "::" + name) == name
  {
    var s := prefix + "::" + name;
    assert s[|prefix|] == ':' && s[|prefix| + 1] == ':';
    var p := LastSegmentMeans(s);
    var t := LastSegment(s);
    hide Contains, LastSegment;
    if |p| < |prefix| {
      LaterSeparator(p, t, prefix, name);
    } else if |p| > |prefix| {
      LaterSeparator(prefix, name, p, t);
    } else {
      assert name == s[|prefix| + 2..] && t == s[|p| + 2..];
    }
  }

  /** A result that carries a full variant identity decodes to the variant it names. */
  lemma IdentityDecodes(types: Types, name: string, k: nat, prefix: string, fields: seq<Member>, j: Json)
    requires TypesOk(types) && name in types.finites && k < |types.finites[name]|
    requires var v := types.finites[name][k]; !Contains(v) && (v == "" || v[0] != ':')
    requires j.Object? && Get(j.fields, "finite") == Some(Object(fields))
    requires Get(fields, "variant_identity") == Some(Text(prefix + "::" + types.finites[name][k]))
    ensures Decode(types, Descriptor(Finite(name)), j) == Some(HEnum(k))
  {
    NamedDescriptor(Finite(name));
    IdentitySegment(prefix, types.finites[name][k]);
    IndexFinds(types.finites[name], k);
  }

  function DecodeLanes(items: seq<Json>): Option<seq<bool>> {
    if items == [] then Some([])
    else
      var rest := DecodeLanes(items[1..]);
      if items[0].Flag? && rest.Some? then Some([items[0].b] + rest.value) else None
  }

  /** What the generated decode expression for `d` computes; `None` is its error. */
  function Decode(types: Types, d: string, j: Json): Option<Host>
    decreases j, 1, 0
  {
    if d == "bool" then
      var v := Inner(j, "boolean", "value");
      if v.Some? && v.value.Flag? then Some(HBool(v.value.b)) else None
    else if d == "int" then DecodeNumber(Inner(j, "integer", "value"), -TWO_63, TWO_63 - 1)
    else if d == "uint" then DecodeUint(j)
    else if d == "byte" then DecodeNumber(Inner(j, "byte", "value"), 0, 255)
    else if "finite:" <= d then
      var v := FiniteVariant(j);
      if v.None? || AfterColon(d) !in types.finites then None
      else
        var k := IndexOf(types.finites[AfterColon(d)], v.value);
        if k.Some? then Some(HEnum(k.value)) else None
    else if "record:" <= d then
      var fields := Inner(j, "record", "fields");
      if fields.None? || !fields.value.Object? || AfterColon(d) !in types.records then None
      else
        InnerSmaller(j, "record", "fields");
        var vs := DecodeFields(types, types.records[AfterColon(d)], fields.value);
        if vs.Some? then Some(HStruct(vs.value)) else None
    else if IsList(d) then
      var items := Inner(j, "sequence", "values");
      if items.None? || !items.value.Array? then None
      else
        InnerSmaller(j, "sequence", "values");
        var vs := DecodeItems(types, Element(d), items.value.items);
        if vs.Some? then Some(HVec(vs.value)) else None
    else if "mask:" <= d then
      var lanes := Inner(j, "mask", "lanes");
      if lanes.None? || !lanes.value.Array? then None
      else
        var bs := DecodeLanes(lanes.value.items);
        if bs.Some? then Some(HMask(bs.value)) else None
    else Some(HJson(j))
  }

  function DecodeFields(types: Types, fields: seq<Field>, j: Json): Option<seq<Host>>
    requires j.Object?
    decreases j, 0, |fields|
  {
    if fields == [] then Some([])
    else
      var v := Get(j.fields, fields[0].name);
      if v.None? then None
      else
        GetSmaller(j.fields, fields[0].name);
        var h := Decode(types, Descriptor(fields[0].contract), v.value);
        var rest := DecodeFields(types, fields[1..], j);
        if h.Some? && rest.Some? then Some([h.value] + rest.value) else None
  }

  function DecodeItems(types: Types, d: string, items: seq<Json>): Option<seq<Host>>
    decreases items, 0, 0
  {
    if items == [] then Some([])
    else
      var h, rest := Decode(types, d, items[0]), DecodeItems(types, d, items[1..]);
      if h.Some? && rest.Some? then Some([h.value] + rest.value) else None
  }

  lemma {:induction false} GetSmaller(fields: seq<Member>, key: string)
    ensures Get(fields, key).Some? ==> exists m | m in fields :: m.key == key && m.value == Get(fields, key).value
  {
    if fields != [] && fields[0].key != key {
      GetSmaller(fields[1..], key);
    }
  }

  lemma InnerSmaller(j: Json, kind: string, key: string)
    ensures Inner(j, kind, key).Some? ==> (j decreases to Inner(j, kind, key).value)
  {
    if Inner(j, kind, key).Some? {
      GetSmaller(j.fields, kind);
      var o := Get(j.fields, kind).value;
      GetSmaller(o.fields, key);
    }
  }

  // ---------- Round trip ----------

  /** The generated Rust compiles: variant names and field names are distinct. */
  predicate TypesOk(types: Types) {
    && (forall n | n in types.finites :: Distinct(types.finites[n]))
    && (forall n | n in types.records :: DistinctFields(types.records[n]))
  }

  predicate DistinctFields(fields: seq<Field>) { forall i, j | 0 <= i < j < |fields| :: fields[i].name != fields[j].name }

  /** A value of the contract's generated Rust type. */
  ghost predicate HasShape(types: Types, c: Contract, h: Host)
    decreases h
  {
    match c
    case Bool => h.HBool?
    case Int(signed) => h.HNumber? && if signed then -TWO_63 <= h.n < TWO_63 else 0 <= h.n < TWO_64
    case Byte => h.HNumber? && 0 <= h.n < 256
    case Finite(name) => h.HEnum? && name in types.finites && h.variant < |types.finites[name]|
    case Record(name) =>
      && h.HStruct? && name in types.records && |h.values| == |types.records[name]|
      && forall i | 0 <= i < |h.values| :: HasShape(types, types.records[name][i].contract, h.values[i])
    case View(e, _) => h.HVec? && forall i | 0 <= i < |h.items| :: HasShape(types, e, h.items[i])
    case Sequence(e, _) => h.HVec? && forall i | 0 <= i < |h.items| :: HasShape(types, e, h.items[i])
    case Vector(e, _) => h.HVec? && forall i | 0 <= i < |h.items| :: HasShape(types, e, h.items[i])
    case Mask(_) => h.HMask?
    case Opaque => h.HJson?
  }

  lemma AfterPrefix(name: string)
    ensures AfterColon("finite:" + name) == name && AfterColon("record:" + name) == name
  {
    AfterPlain("finite", name);
    AfterPlain("record", name);
    assert "finite" + (":" + name) == "finite:" + name && "record" + (":" + name) == "record:" + name;
  }

  lemma {:induction false} AfterPlain(prefix: string, name: string)
    requires NoColon(prefix)
    ensures AfterColon(prefix + (":" + name)) == name
  {
    if prefix == "" {
      assert prefix + (":" + name) == ":" + name;
    } else {
      assert (prefix + (":" + name))[0] == prefix[0] && (prefix + (":" + name))[1..] == prefix[1..] + (":" + name);
      AfterPlain(prefix[1..], name);
    }
  }

  /** Which branch of the codec a descriptor takes. */
  lemma ListDescriptor(c: Contract)
    requires c.View? || c.Sequence? || c.Vector?
    ensures ListLike(Descriptor(c)) && Element(Descriptor(c)) == Descriptor(c.element)
  {
    hide Element;
    match c
    case View(e, n) => BoundNoColon(n); ListText("view", "view:", Descriptor(e), Bound(n));
    case Sequence(e, n) => BoundNoColon(n); ListText("sequence", "sequence:", Descriptor(e), Bound(n));
    case Vector(e, n) => DecimalDigits(n); ListText("vector", "vector:", Descriptor(e), Decimal(n));
  }

  lemma BoundNoColon(n: Option<nat>)
    ensures NoColon(Bound(n))
  {
    if n.Some? {
      DecimalDigits(n.value);
    }
  }

  predicate ListLike(d: string) {
    IsList(d) && d != "bool" && d != "int" && d != "uint" && d != "byte" && !("finite:" <= d) && !("record:" <= d)
  }

  lemma ListText(prefix: string, head: string, e: string, bound: string)
    requires prefix == "view" || prefix == "sequence" || prefix == "vector"
    requires head == prefix + ":" && NoColon(bound)
    ensures ListLike(head + e + ":" + bound) && Element(head + e + ":" + bound) == e
  {
    ElementRecovered(prefix, e, bound);
    hide Element;
    var d, n := head + e + ":" + bound, |head|;
    assert d[..n] == head;
    assert d[0] == prefix[0] && |d| > 5;
    assert prefix == "view" ==> d[..5] == "view:";
    assert prefix == "sequence" ==> d[..9] == "sequence:";
    assert prefix == "vector" ==> d[..7] == "vector:";
  }

  lemma NamedDescriptor(c: Contract)
    requires c.Finite? || c.Record? || c.Mask?
    ensures var d := Descriptor(c);
            && d != "bool" && d != "int" && d != "uint" && d != "byte"
            && ("finite:" <= d <==> c.Finite?) && ("record:" <= d <==> c.Record?)
            && (c.Mask? ==> !IsList(d) && "mask:" <= d)
            && (!c.Mask? ==> AfterColon(d) == c.name)
  {
    var d := Descriptor(c);
    match c
    case Finite(n) =>
      AfterPrefix(n);
      assert d[..7] == "finite:" && d[0] == 'f';
    case Record(n) =>
      AfterPrefix(n);
      assert d[..7] == "record:" && d[0] == 'r';
    case Mask(_) =>
      assert d[..5] == "mask:" && d[0] == 'm';
  }

  lemma {:induction false} IndexFinds(xs: seq<string>, k: nat)
    requires Distinct(xs) && k < |xs|
    ensures IndexOf(xs, xs[k]) == Some(k)
  {
    if k > 0 {
      IndexFinds(xs[1..], k - 1);
    }
  }

  lemma GetPair(a: Member, b: Member)
    ensures Get([a, b], a.key) == Some(a.value)
    ensures a.key != b.key ==> Get([a, b], b.key) == Some(b.value)
    ensures forall k | k != a.key && k != b.key :: Get([a, b], k) == None
  {
    assert [a, b][1..] == [b] && [b][1..] == [];
    forall k | k != a.key && k != b.key
      ensures Get([a, b], k) == None
    {
      assert Get([b], k) == Get([], k);
    }
  }

  lemma GetOne(a: Member)
    ensures Get([a], a.key) == Some(a.value)
  {
  }

  lemma {:induction false} LanesBack(lanes: seq<bool>)
    ensures DecodeLanes(Flags(lanes)) == Some(lanes)
  {
    if lanes != [] {
      LanesBack(lanes[1..]);
      assert Flags(lanes)[1..] == Flags(lanes[1..]);
      assert lanes == [lanes[0]] + lanes[1..];
    }
  }

  lemma InnerWrap(kind: string, key: string, value: Json)
    ensures Inner(Wrap1(kind, key, value), kind, key) == Some(value)
  {
    GetOne(Member(key, value));
    GetOne(Member(kind, Object([Member(key, value)])));
  }

  lemma UintBack(n: int)
    requires 0 <= n < TWO_64
    ensures DecodeUint(UintJson(n)) == Some(HNumber(n))
  {
    var inner := Object([Member("bits", Number(64)), Member("signed", Flag(false))]);
    GetPair(Member("bits", Number(64)), Member("signed", Flag(false)));
    GetPair(Member("value", Number(n)), Member("type", inner));
    GetOne(Member("integer", Object([Member("value", Number(n)), Member("type", inner)])));
  }

  lemma FiniteBack(types: Types, c: Contract, h: Host)
    requires TypesOk(types) && c.Finite? && HasShape(types, c, h)
    ensures Decode(types, Descriptor(c), Encode(types, Descriptor(c), h)) == Some(h)
  {
    var d, v := Descriptor(c), types.finites[c.name][h.variant];
    NamedDescriptor(c);
    GetPair(Member("type", Text(c.name)), Member("variant", Text(v)));
    GetOne(Member("finite", Object([Member("type", Text(c.name)), Member("variant", Text(v))])));
    IndexFinds(types.finites[c.name], h.variant);
  }

  function EncodedItems(types: Types, d: string, items: seq<Host>): (r: seq<Json>)
    ensures |r| == |items|
  {
    seq(|items|, i requires 0 <= i < |items| => Encode(types, d, items[i]))
  }

  function EncodedFields(types: Types, fields: seq<Field>, values: seq<Host>): (r: seq<Member>)
    requires |fields| == |values|
    ensures |r| == |fields|
  {
    seq(|fields|, i requires 0 <= i < |fields| => Member(fields[i].name, Encode(types, Descriptor(fields[i].contract), values[i])))
  }

  lemma {:induction false} ItemsBack(types: Types, d: string, items: seq<Host>)
    requires forall i | 0 <= i < |items| :: Decode(types, d, Encode(types, d, items[i])) == Some(items[i])
    ensures DecodeItems(types, d, EncodedItems(types, d, items)) == Some(items)
  {
    hide Encode, Decode;
    if items != [] {
      ItemsBack(types, d, items[1..]);
      assert EncodedItems(types, d, items)[1..] == EncodedItems(types, d, items[1..]);
      assert items == [items[0]] + items[1..];
    }
  }

  lemma {:induction false} GetNamed(members: seq<Member>, k: nat)
    requires k < |members| && forall i, j | 0 <= i < j < |members| :: members[i].key != members[j].key
    ensures Get(members, members[k].key) == Some(members[k].value)
  {
    if k > 0 {
      GetNamed(members[1..], k - 1);
    }
  }

  /** The fields from `k` on, each found under its own name. */
  lemma {:induction false} FieldsBack(types: Types, fields: seq<Field>, values: seq<Host>, k: nat)
    requires |fields| == |values| && k <= |fields| && DistinctFields(fields)
    requires forall i | 0 <= i < |fields| ::
      Decode(types, Descriptor(fields[i].contract), Encode(types, Descriptor(fields[i].contract), values[i])) == Some(values[i])
    ensures DecodeFields(types, fields[k..], Object(EncodedFields(types, fields, values))) == Some(values[k..])
    decreases |fields| - k
  {
    hide Encode, Decode, Descriptor;
    if k < |fields| {
      var members := EncodedFields(types, fields, values);
      FieldsBack(types, fields, values, k + 1);
      assert fields[k..][1..] == fields[k + 1..] && fields[k..][0] == fields[k];
      GetNamed(members, k);
      assert members[k].key == fields[k].name;
      assert values[k..] == [values[k]] + values[k + 1..];
    }
  }

  lemma RecordBack(types: Types, c: Contract, h: Host)
    requires TypesOk(types) && c.Record? && HasShape(types, c, h)
    requires forall i | 0 <= i < |h.values| ::
      var d := Descriptor(types.records[c.name][i].contract); Decode(types, d, Encode(types, d, h.values[i])) == Some(h.values[i])
    ensures Decode(types, Descriptor(c), Encode(types, Descriptor(c), h)) == Some(h)
  {
    var d, fields := Descriptor(c), types.records[c.name];
    NamedDescriptor(c);
    var body := Object(EncodedFields(types, fields, h.values));
    var record := Object([Member("type", Text(c.name)), Member("fields", body)]);
    assert Encode(types, d, h) == Object([Member("record", record)]);
    hide Encode, Descriptor;
    GetPair(Member("type", Text(c.name)), Member("fields", body));
    GetOne(Member("record", record));
    FieldsBack(types, fields, h.values, 0);
    assert fields[0..] == fields && h.values[0..] == h.values;
  }

  lemma ListBack(types: Types, c: Contract, h: Host)
    requires (c.View? || c.Sequence? || c.Vector?) && h.HVec?
    requires forall i | 0 <= i < |h.items| ::
      Decode(types, Descriptor(c.element), Encode(types, Descriptor(c.element), h.items[i])) == Some(h.items[i])
    ensures Decode(types, Descriptor(c), Encode(types, Descriptor(c), h)) == Some(h)
  {
    var d := Descriptor(c);
    ListDescriptor(c);
    var items := EncodedItems(types, Element(d), h.items);
    assert Encode(types, d, h) == Wrap1("sequence", "values", Array(items));
    hide Encode, Descriptor, Element;
    InnerWrap("sequence", "values", Array(items));
    ItemsBack(types, Element(d), h.items);
  }

  lemma MaskBack(types: Types, c: Contract, h: Host)
    requires c.Mask? && h.HMask?
    ensures Decode(types, Descriptor(c), Encode(types, Descriptor(c), h)) == Some(h)
  {
    NamedDescriptor(c);
    InnerWrap("mask", "lanes", Array(Flags(h.lanes)));
    LanesBack(h.lanes);
  }

  lemma ScalarBack(types: Types, c: Contract, h: Host)
    requires (c.Bool? || c.Int? || c.Byte? || c.Opaque?) && HasShape(types, c, h)
    ensures Decode(types, Descriptor(c), Encode(types, Descriptor(c), h)) == Some(h)
  {
    match c
    case Bool => InnerWrap("boolean", "value", Flag(h.b));
    case Int(signed) =>
      if signed {
        InnerWrap("integer", "value", Number(h.n));
      } else {
        UintBack(h.n);
      }
    case Byte => InnerWrap("byte", "value", Number(h.n));
    case Opaque => assert "scalar"[0] == 's' && "scalar"[1] == 'c';
  }

  /** For every contract, nested to any depth, decoding the encoded value gives it back. */
  lemma {:induction false} BindingRoundTrips(types: Types, c: Contract, h: Host)
    requires TypesOk(types) && HasShape(types, c, h)
    ensures Decode(types, Descriptor(c), Encode(types, Descriptor(c), h)) == Some(h)
    decreases h
  {
    hide Encode, Decode, Descriptor;
    match c
    case Finite(_) => FiniteBack(types, c, h);
    case Record(name) =>
      forall i | 0 <= i < |h.values|
        ensures var d := Descriptor(types.records[name][i].contract); Decode(types, d, Encode(types, d, h.values[i])) == Some(h.values[i])
      {
        BindingRoundTrips(types, types.records[name][i].contract, h.values[i]);
      }
      RecordBack(types, c, h);
    case View(e, _) =>
      forall i | 0 <= i < |h.items| ensures Decode(types, Descriptor(e), Encode(types, Descriptor(e), h.items[i])) == Some(h.items[i]) {
        BindingRoundTrips(types, e, h.items[i]);
      }
      ListBack(types, c, h);
    case Sequence(e, _) =>
      forall i | 0 <= i < |h.items| ensures Decode(types, Descriptor(e), Encode(types, Descriptor(e), h.items[i])) == Some(h.items[i]) {
        BindingRoundTrips(types, e, h.items[i]);
      }
      ListBack(types, c, h);
    case Vector(e, _) =>
      forall i | 0 <= i < |h.items| ensures Decode(types, Descriptor(e), Encode(types, Descriptor(e), h.items[i])) == Some(h.items[i]) {
        BindingRoundTrips(types, e, h.items[i]);
      }
      ListBack(types, c, h);
    case Mask(_) => MaskBack(types, c, h);
    case _ => ScalarBack(types, c, h);
  }

  // ---------- What decodes is a value of its type ----------

  lemma {:induction false} ItemsDecoded(types: Types, d: string, items: seq<Json>, k: nat)
    requires DecodeItems(types, d, items).Some?
    ensures var hs := DecodeItems(types, d, items).value;
            |hs| == |items| && (k < |items| ==> Decode(types, d, items[k]) == Some(hs[k]))
  {
    hide Decode;
    if items != [] {
      ItemsDecoded(types, d, items[1..], if k == 0 then 0 else k - 1);
    }
  }

  lemma {:induction false} FieldsDecoded(types: Types, fields: seq<Field>, j: Json, k: nat)
    requires j.Object? && DecodeFields(types, fields, j).Some?
    ensures var hs := DecodeFields(types, fields, j).value;
            && |hs| == |fields|
            && (k < |fields| ==>
                  var v := Get(j.fields, fields[k].name);
                  v.Some? && Decode(types, Descriptor(fields[k].contract), v.value) == Some(hs[k]))
    decreases |fields|
  {
    hide Decode, Descriptor, Get;
    if fields != [] {
      FieldsDecoded(types, fields[1..], j, if k == 0 then 0 else k - 1);
    }
  }

  lemma {:induction false} IndexBelow(xs: seq<string>, x: string)
    ensures IndexOf(xs, x).Some? ==> IndexOf(xs, x).value < |xs| && xs[IndexOf(xs, x).value] == x
  {
    if xs != [] && xs[0] != x {
      IndexBelow(xs[1..], x);
    }
  }

  lemma ScalarDecoded(types: Types, c: Contract, j: Json)
    requires !c.Record? && !c.View? && !c.Sequence? && !c.Vector?
    requires Decode(types, Descriptor(c), j).Some?
    ensures HasShape(types, c, Decode(types, Descriptor(c), j).value)
  {
    match c
    case Finite(name) =>
      NamedDescriptor(c);
      hide Descriptor;
      IndexBelow(types.finites[name], FiniteVariant(j).value);
    case Mask(_) =>
      NamedDescriptor(c);
    case Opaque =>
      assert "scalar"[0] == 's' && "scalar"[1] == 'c';
    case _ =>
  }

  /** Which JSON is a truth value or a number, and which one it is: an unsigned integer
      must also say that it has 64 bits and no sign. */
  lemma NumberDecodes(types: Types, j: Json, n: int, b: bool)
    ensures Decode(types, "bool", j) == Some(HBool(b)) <==> Inner(j, "boolean", "value") == Some(Flag(b))
    ensures Decode(types, "int", j) == Some(HNumber(n)) <==>
              Inner(j, "integer", "value") == Some(Number(n)) && -0x8000_0000_0000_0000 <= n < 0x8000_0000_0000_0000
    ensures Decode(types, "byte", j) == Some(HNumber(n)) <==> Inner(j, "byte", "value") == Some(Number(n)) && 0 <= n < 256
    ensures Decode(types, "uint", j) == Some(HNumber(n)) <==>
              && Inner(j, "integer", "value") == Some(Number(n)) && 0 <= n < 0x1_0000_0000_0000_0000
              && (exists t :: Inner(j, "integer", "type") == Some(Object(t)) && Get(t, "bits") == Some(Number(64)) && Get(t, "signed") == Some(Flag(false)))
  {
    hide Inner, Get;
  }

  lemma RecordDecoded(types: Types, c: Contract, j: Json) returns (body: Json)
    requires c.Record? && Decode(types, Descriptor(c), j).Some?
    ensures var h := Decode(types, Descriptor(c), j).value;
            && Inner(j, "record", "fields") == Some(body) && body.Object? && c.name in types.records && h.HStruct?
            && DecodeFields(types, types.records[c.name], body) == Some(h.values)
  {
    NamedDescriptor(c);
    hide Descriptor, Inner;
    body := Inner(j, "record", "fields").value;
  }

  lemma ListDecoded(types: Types, c: Contract, j: Json) returns (body: Json)
    requires (c.View? || c.Sequence? || c.Vector?) && Decode(types, Descriptor(c), j).Some?
    ensures var h := Decode(types, Descriptor(c), j).value;
            && Inner(j, "sequence", "values") == Some(body) && body.Array? && h.HVec?
            && DecodeItems(types, Descriptor(c.element), body.items) == Some(h.items)
  {
    ListDescriptor(c);
    hide Descriptor, Inner, Element;
    body := Inner(j, "sequence", "values").value;
  }

  /** Whatever decodes under a contract is a value of the contract's type: no number out
      of range, no unknown variant, no missing field, at any depth. */
  lemma {:induction false} DecodedShape(types: Types, c: Contract, j: Json)
    requires Decode(types, Descriptor(c), j).Some?
    ensures HasShape(types, c, Decode(types, Descriptor(c), j).value)
    decreases j, 1
  {
    var h := Decode(types, Descriptor(c), j).value;
    hide Decode, DecodeItems, DecodeFields, Descriptor, Get;
    match c
    case Record(name) =>
      var body := RecordDecoded(types, c, j);
      InnerSmaller(j, "record", "fields");
      var fields := types.records[name];
      FieldsDecoded(types, fields, body, 0);
      forall i | 0 <= i < |h.values|
        ensures HasShape(types, fields[i].contract, h.values[i])
      {
        FieldsDecoded(types, fields, body, i);
        GetSmaller(body.fields, fields[i].name);
        DecodedShape(types, fields[i].contract, Get(body.fields, fields[i].name).value);
      }
    case View(e, _) => DecodedItems(types, c, j);
    case Sequence(e, _) => DecodedItems(types, c, j);
    case Vector(e, _) => DecodedItems(types, c, j);
    case _ => ScalarDecoded(types, c, j);
  }

  lemma {:induction false} DecodedItems(types: Types, c: Contract, j: Json)
    requires (c.View? || c.Sequence? || c.Vector?) && Decode(types, Descriptor(c), j).Some?
    ensures HasShape(types, c, Decode(types, Descriptor(c), j).value)
    decreases j, 0
  {
    var h := Decode(types, Descriptor(c), j).value;
    hide Decode, DecodeItems, DecodeFields, Descriptor;
    var body := ListDecoded(types, c, j);
    InnerSmaller(j, "sequence", "values");
    ItemsDecoded(types, Descriptor(c.element), body.items, 0);
    forall i | 0 <= i < |h.items|
      ensures HasShape(types, c.element, h.items[i])
    {
      ItemsDecoded(types, Descriptor(c.element), body.items, i);
      DecodedShape(types, c.element, body.items[i]);
    }
  }
}
