/** Native symbols, contract keys and cache keys: which spellings determine the
    entry they were made from. */
module Symbols {
  import opened Emit
  import Naming

  // ---------- Native symbols ----------

  predicate AsciiAlnum(c: char) { 'a' <= c <= 'z' || 'A' <= c <= 'Z' || '0' <= c <= '9' }

  /** `_` doubles; any other non-alphanumeric character becomes one `_`. */
  function Mangle(part: string): string {
    if part == "" then ""
    else (if part[0] == '_' then "__" else if AsciiAlnum(part[0]) then [part[0]] else "_") + Mangle(part[1..])
  }

  function QualifiedSymbol(namespace: string, name: string): string {
    "mncs_" + Mangle(namespace) + "__" + Mangle(name)
  }

  /** What one character becomes: ASCII digits and letters stay. */
  function Escaped(c: char): string {
    if c == '_' then "__"
    else if 48 <= c as int <= 57 || 65 <= c as int <= 90 || 97 <= c as int <= 122 then [c] else "_"
  }

  function Concat(parts: seq<string>): string { if parts == [] then "" else parts[0] + Concat(parts[1..]) }

  lemma {:induction false} MangleMeans(part: string)
    ensures Mangle(part) == Concat(seq(|part|, i requires 0 <= i < |part| => Escaped(part[i])))
  {
    var parts := seq(|part|, i requires 0 <= i < |part| => Escaped(part[i]));
    if part != "" {
      MangleMeans(part[1..]);
      assert parts[1..] == seq(|part[1..]|, i requires 0 <= i < |part[1..]| => Escaped(part[1..][i]));
    }
  }

  /** The escaping is not injective, on parts or on whole identities. */
  lemma ManglingCollides()
    ensures Mangle("a._b") == Mangle("a_.b")
    ensures QualifiedSymbol("a_b", "c") == QualifiedSymbol("a", "b_c")
  {
    calc {
      Mangle("a._b");
      "a" + ("_" + ("__" + ("b" + Mangle(""))));
      "a" + ("__" + ("_" + ("b" + Mangle(""))));
      Mangle("a_.b");
    }
    assert Mangle("a_b") == "a" + ("__" + ("b" + Mangle("")));
    assert Mangle("b_c") == "b" + ("__" + ("c" + Mangle("")));
    assert Mangle("c") == "c" + Mangle("") && Mangle("a") == "a" + Mangle("");
  }

  /** How many underscores a special character spells. */
  function Weight(c: char): nat { if c == '_' then 2 else 1 }

  /** The weight of the special characters at the front. */
  function Lead(s: string): nat {
    if s == "" || AsciiAlnum(s[0]) then 0 else Weight(s[0]) + Lead(s[1..])
  }

  function AfterLead(s: string): (r: string)
    ensures |r| <= |s| && (r == "" || AsciiAlnum(r[0]))
    ensures s != "" && !AsciiAlnum(s[0]) ==> |r| < |s|
  {
    if s == "" || AsciiAlnum(s[0]) then s else AfterLead(s[1..])
  }

  /** Two parts read alike when each run of special characters weighs the same. */
  predicate SameRuns(x: string, y: string)
    decreases |x| + |y|
  {
    && Lead(x) == Lead(y)
    && var u, v := AfterLead(x), AfterLead(y);
       && (u == "" <==> v == "")
       && (u != "" ==> u[0] == v[0] && SameRuns(u[1..], v[1..]))
  }

  function Underscores(n: nat): (r: string)
    ensures |r| == n && forall i | 0 <= i < n :: r[i] == '_'
  {
    seq(n, _ => '_')
  }

  lemma {:induction false} MangleLead(s: string)
    ensures Mangle(s) == Underscores(Lead(s)) + Mangle(AfterLead(s))
  {
    if s != "" && !AsciiAlnum(s[0]) {
      MangleLead(s[1..]);
      var n := Weight(s[0]);
      assert Underscores(n + Lead(s[1..])) == Underscores(n) + Underscores(Lead(s[1..]));
      assert Underscores(2) == "__" && Underscores(1) == "_";
    }
  }

  lemma UnderscoresSplit(m: nat, n: nat, u: string, v: string)
    requires u == "" || u[0] != '_'
    requires v == "" || v[0] != '_'
    requires Underscores(m) + u == Underscores(n) + v
    ensures m == n && u == v
  {
    var w, x := Underscores(m) + u, Underscores(n) + v;
    assert forall i | 0 <= i < m :: w[i] == '_';
    assert forall i | 0 <= i < n :: x[i] == '_';
    assert u != "" ==> w[m] == u[0];
    assert v != "" ==> x[n] == v[0];
    assert u == w[m..] && v == x[n..];
  }

  /** Exactly which parts share a spelling. */
  lemma {:induction false} MangleExact(x: string, y: string)
    ensures Mangle(x) == Mangle(y) <==> SameRuns(x, y)
    decreases |x| + |y|
  {
    MangleLead(x);
    MangleLead(y);
    hide Underscores;
    var u, v := AfterLead(x), AfterLead(y);
    assert u != "" ==> Mangle(u) == [u[0]] + Mangle(u[1..]);
    assert v != "" ==> Mangle(v) == [v[0]] + Mangle(v[1..]);
    if Mangle(x) == Mangle(y) {
      UnderscoresSplit(Lead(x), Lead(y), Mangle(u), Mangle(v));
    }
    if u != "" && v != "" {
      MangleExact(u[1..], v[1..]);
      if Mangle(u) == Mangle(v) {
        assert Mangle(u)[1..] == Mangle(u[1..]) && Mangle(v)[1..] == Mangle(v[1..]);
      }
    }
  }

  // ---------- Keys ----------

  /** The key of a function value contract. */
  function EntryKey(namespace: string, name: string): string { namespace + "::" + name }

  predicate NoColon(s: string) { forall i | 0 <= i < |s| :: s[i] != ':' }

  lemma EntryKeyInjective(m: string, f: string, n: string, g: string)
    requires NoColon(m) && NoColon(n) && EntryKey(m, f) == EntryKey(n, g)
    ensures m == n && f == g
  {
    var k, l := EntryKey(m, f), EntryKey(n, g);
    assert k[|m|] == ':' && l[|n|] == ':';
    assert forall i | 0 <= i < |m| :: k[i] == m[i];
    assert forall i | 0 <= i < |n| :: l[i] == n[i];
    assert m == k[..|m|] && n == l[..|n|];
    assert f == k[|m| + 2..] && g == l[|n| + 2..];
  }

  /** The key under which a compiled driver is kept. */
  function CacheKey(namespace: string, name: string, seed: nat): string {
    EntryKey(namespace, name) + "#depth" + Decimal(seed)
  }

  /** The part before the last `#` and the part after it are determined. */
  lemma LastHash(a: string, x: string, b: string, y: string)
    requires a + "#" + x == b + "#" + y
    requires (forall i | 0 <= i < |x| :: x[i] != '#') && forall i | 0 <= i < |y| :: y[i] != '#'
    ensures a == b && x == y
  {
    var s, t := a + "#" + x, b + "#" + y;
    assert s[|a|] == '#' && t[|b|] == '#';
    assert forall i | |a| < i < |s| :: s[i] == x[i - |a| - 1];
    assert forall i | |b| < i < |t| :: t[i] == y[i - |b| - 1];
    assert a == s[..|a|] && b == t[..|b|] && x == s[|a| + 1..] && y == t[|b| + 1..];
  }

  /** The cache key always determines the contract key and the seed. */
  lemma CacheKeySplits(m: string, f: string, s: nat, n: string, g: string, t: nat)
    requires CacheKey(m, f, s) == CacheKey(n, g, t)
    ensures EntryKey(m, f) == EntryKey(n, g) && s == t
  {
    var x, y := "depth" + Decimal(s), "depth" + Decimal(t);
    Naming.DecimalDigits(s);
    Naming.DecimalDigits(t);
    assert CacheKey(m, f, s) == EntryKey(m, f) + "#" + x && CacheKey(n, g, t) == EntryKey(n, g) + "#" + y;
    LastHash(EntryKey(m, f), x, EntryKey(n, g), y);
    assert Decimal(s) == x[5..] && Decimal(t) == y[5..];
    Naming.DecimalInjective(s, t);
  }
}
