/** When a session's cache key determines the driver, read off the artifact's own
    tables: its contract keys, where they split, and its exports. */
module SessionTables {
  import opened Options
  import opened Symbols
  import opened Session

  // ---------- Splits ----------

  /** A key splits at `i` into a module before the colons and a function behind them. */
  predicate SplitsAt(key: string, i: nat) { i + 2 <= |key| && key[i..i + 2] == "::" }

  /** `f` and `g` are what stands behind two splits of one key, `f` the earlier. */
  predicate Nests(f: string, g: string) {
    |g| < |f| && f[|f| - |g|..] == g && f[|f| - |g| - 1] == ':' && (|f| == |g| + 1 || f[|f| - |g| - 2] == ':')
  }

  lemma KeySplits(m: string, f: string)
    ensures var k := EntryKey(m, f); SplitsAt(k, |m|) && k[..|m|] == m && k[|m| + 2..] == f
  {
    var k := EntryKey(m, f);
    assert k == m + "::" + f && k[|m|..|m| + 2] == "::" && k[..|m|] == m && k[|m| + 2..] == f;
  }

  lemma SplitsKey(key: string, i: nat)
    requires SplitsAt(key, i)
    ensures EntryKey(key[..i], key[i + 2..]) == key
  {
    assert key == key[..i] + key[i..i + 2] + key[i + 2..];
  }

  lemma SplitsNest(key: string, i: nat, j: nat)
    requires SplitsAt(key, i) && SplitsAt(key, j) && i < j
    ensures Nests(key[i + 2..], key[j + 2..])
  {
    var f, g := key[i + 2..], key[j + 2..];
    assert key[j..j + 2][0] == key[j] && key[j..j + 2][1] == key[j + 1];
    assert f[|f| - |g|..] == g;
    assert f[|f| - |g| - 1] == key[j + 1];
    assert |f| > |g| + 1 ==> f[|f| - |g| - 2] == key[j];
  }

  /** Any module name before `f` makes a key that also splits before `g`. */
  lemma NestsSplit(m: string, f: string, g: string)
    requires Nests(f, g)
    ensures var k := EntryKey(m, f); |g| + 2 <= |k| && SplitsAt(k, |k| - |g| - 2) && k[|k| - |g|..] == g
  {
    var p := f[..|f| - |g|];
    var q := m + "::" + p;
    assert f == p + g && p[|p| - 1] == ':' && (|p| == 1 || p[|p| - 2] == ':');
    assert EntryKey(m, f) == q + g;
    assert q[|q| - 1] == ':' && q[|q| - 2] == ':';
    EndsSplit(q, g);
  }

  lemma EndsSplit(q: string, g: string)
    requires |q| >= 2 && q[|q| - 1] == ':' && q[|q| - 2] == ':'
    ensures SplitsAt(q + g, |q| - 2) && (q + g)[|q|..] == g
  {
    assert (q + g)[|q| - 2..|q|] == [q[|q| - 2], q[|q| - 1]] == "::";
  }

  /** The short symbols of nested names differ. */
  lemma ShortSymbolsDiffer(f: string, g: string)
    requires Nests(f, g)
    ensures ShortSymbol(f) != ShortSymbol(g)
  {
    assert ("mncs_" + g)[4] == '_';
  }

  // ---------- The condition ----------

  function NativeSymbol(key: string): string { "mncs_" + Mangle(key) }

  predicate Exported(a: Artifact, symbol: string) { symbol in a.exports }

  /** What a driver takes from a contract. */
  function Signature(c: Contract): (seq<ValueContract>, Option<ValueContract>) {
    (c.inputs, if c.outputs == [] then None else Some(c.outputs[0]))
  }

  /** A contract key without a symbol of its own splits before at most one exported
      short name. */
  predicate OneShortExport(a: Artifact) {
    forall k, i, j | k in a.contracts && 0 <= i < j && j + 2 <= |k| && SplitsAt(k, i) && SplitsAt(k, j) && !Exported(a, NativeSymbol(k)) ::
      !Exported(a, ShortSymbol(k[i + 2..])) || !Exported(a, ShortSymbol(k[j + 2..]))
  }

  /** Of two nested contract keys at most one is exported by its short name. */
  predicate OneNestedExport(a: Artifact) {
    forall f, g | f in a.contracts && g in a.contracts && Nests(f, g) :: !Exported(a, ShortSymbol(f)) || !Exported(a, ShortSymbol(g))
  }

  /** Nested contract keys with a common native symbol have one signature. The symbol
      bounds the module name before them. */
  ghost predicate OneNestedSignature(a: Artifact) {
    forall f, g, m: string, x | f in a.contracts && g in a.contracts && Nests(f, g)
        && x in a.exports && |m| <= |x| && QualifiedSymbol(m, f) == x && EntryKey(m, f) !in a.contracts ::
      Signature(a.contracts[f]) == Signature(a.contracts[g])
  }

  ghost predicate TablesAgree(a: Artifact) { OneShortExport(a) && OneNestedExport(a) && OneNestedSignature(a) }

  // ---------- It is exact ----------

  lemma {:induction false} MangleLonger(s: string)
    ensures |s| <= |Mangle(s)|
  {
    if s != "" {
      MangleLonger(s[1..]);
    }
  }

  /** What an entry is built from: its key's or its own contract, the key's or its
      own symbol. */
  lemma DriverParts(a: Artifact, m: string, f: string)
    requires EntryDriver(a, m, f).Some?
    ensures var k := EntryKey(m, f);
            && (k in a.contracts || f in a.contracts)
            && (Exported(a, NativeSymbol(k)) || Exported(a, ShortSymbol(f)))
            && var (inputs, output) := Signature(a.contracts[if k in a.contracts then k else f]);
               EntryDriver(a, m, f) == Some(Driver(if Exported(a, NativeSymbol(k)) then NativeSymbol(k) else ShortSymbol(f), inputs, output, 0))
  {
    hide EntryKey, Mangle, ShortSymbol;
    KeySpellsSymbol(m, f);
  }

  /** Two splits of one key, both resolved, are built alike. */
  lemma SplitsAgree(a: Artifact, key: string, i: nat, j: nat)
    requires TablesAgree(a) && SplitsAt(key, i) && SplitsAt(key, j) && i < j && j + 2 <= |key|
    requires EntryDriver(a, key[..i], key[i + 2..]).Some? && EntryDriver(a, key[..j], key[j + 2..]).Some?
    ensures EntryDriver(a, key[..i], key[i + 2..]) == EntryDriver(a, key[..j], key[j + 2..])
  {
    hide Nests, SplitsAt, EntryKey, EntryDriver, OneNestedExport, OneNestedSignature, NativeSymbol, ShortSymbol, Exported;
    SplitsKey(key, i);
    SplitsKey(key, j);
    SplitsNest(key, i, j);
    PairAgrees(a, key[..i], key[i + 2..], key[..j], key[j + 2..]);
  }

  lemma PairAgrees(a: Artifact, m: string, f: string, n: string, g: string)
    requires OneNestedExport(a) && OneNestedSignature(a) && EntryKey(m, f) == EntryKey(n, g) && Nests(f, g)
    requires EntryKey(m, f) in a.contracts && !Exported(a, NativeSymbol(EntryKey(m, f))) ==>
               !Exported(a, ShortSymbol(f)) || !Exported(a, ShortSymbol(g))
    requires EntryDriver(a, m, f).Some? && EntryDriver(a, n, g).Some?
    ensures EntryDriver(a, m, f) == EntryDriver(a, n, g)
  {
    hide Nests, EntryKey, NativeSymbol, ShortSymbol, EntryDriver, Signature, OneNestedSignature, Exported;
    var key := EntryKey(m, f);
    DriverParts(a, m, f);
    DriverParts(a, n, g);
    if key !in a.contracts && Exported(a, NativeSymbol(key)) {
      SameSignature(a, m, f, g);
    }
  }

  lemma SameSignature(a: Artifact, m: string, f: string, g: string)
    requires OneNestedSignature(a) && f in a.contracts && g in a.contracts && Nests(f, g)
    requires EntryKey(m, f) !in a.contracts && Exported(a, NativeSymbol(EntryKey(m, f)))
    ensures Signature(a.contracts[f]) == Signature(a.contracts[g])
  {
    hide Nests, EntryKey, Signature, QualifiedSymbol;
    KeySpellsSymbol(m, f);
    MangledModule(m, f);
  }

  lemma MangledModule(m: string, f: string)
    ensures |m| <= |QualifiedSymbol(m, f)|
  {
    MangleLonger(m);
  }

  /** Longer than every key and every export. */
  lemma {:induction false} LongerThanKeys(keys: set<string>) returns (n: nat)
    ensures forall k | k in keys :: |k| < n
  {
    if keys == {} {
      n := 0;
    } else {
      var k :| k in keys;
      var rest := LongerThanKeys(keys - {k});
      n := if |k| < rest then rest else |k| + 1;
    }
  }

  lemma FreshModule(a: Artifact, f: string) returns (m: string)
    ensures EntryKey(m, f) !in a.contracts && NativeSymbol(EntryKey(m, f)) !in a.exports
  {
    var n := LongerThanKeys(a.contracts.Keys + (set x | x in a.exports));
    m := seq(n, _ => 'a');
    var key := EntryKey(m, f);
    MangleLonger(key);
    assert |key| >= n && |NativeSymbol(key)| >= n;
    assert NativeSymbol(key) !in set x | x in a.exports;
  }

  /** Entries of nested contract keys before which a module makes no contract key. */
  lemma NestedEntries(a: Artifact, m: string, f: string, g: string)
    requires SpellingDetermines(a) && f in a.contracts && g in a.contracts && Nests(f, g) && EntryKey(m, f) !in a.contracts
    ensures Exported(a, NativeSymbol(EntryKey(m, f))) ==> Signature(a.contracts[f]) == Signature(a.contracts[g])
    ensures !Exported(a, NativeSymbol(EntryKey(m, f))) ==> !Exported(a, ShortSymbol(f)) || !Exported(a, ShortSymbol(g))
  {
    hide Nests, SplitsAt, EntryKey, Mangle, ShortSymbol;
    var k := EntryKey(m, f);
    NestsSplit(m, f, g);
    var n := k[..|k| - |g| - 2];
    SplitsKey(k, |k| - |g| - 2);
    assert k[|k| - |g| - 2 + 2..] == g;
    KeySpellsSymbol(m, f);
    KeySpellsSymbol(n, g);
    ShortSymbolsDiffer(f, g);
    assert EntryDriver(a, m, f).Some? && EntryDriver(a, n, g).Some? ==> EntryDriver(a, m, f) == EntryDriver(a, n, g);
  }

  lemma SplitEntries(a: Artifact, k: string, i: nat, j: nat)
    requires SpellingDetermines(a) && k in a.contracts && i < j && j + 2 <= |k| && SplitsAt(k, i) && SplitsAt(k, j) && !Exported(a, NativeSymbol(k))
    ensures !Exported(a, ShortSymbol(k[i + 2..])) || !Exported(a, ShortSymbol(k[j + 2..]))
  {
    hide Nests, SplitsAt, EntryKey, Mangle, ShortSymbol;
    var m, f, n, g := k[..i], k[i + 2..], k[..j], k[j + 2..];
    SplitsKey(k, i);
    SplitsKey(k, j);
    SplitsNest(k, i, j);
    ShortSymbolsDiffer(f, g);
    KeySpellsSymbol(m, f);
    KeySpellsSymbol(n, g);
    assert EntryDriver(a, m, f).Some? && EntryDriver(a, n, g).Some? ==> EntryDriver(a, m, f) == EntryDriver(a, n, g);
  }

  lemma SpellingNeeds(a: Artifact)
    requires SpellingDetermines(a)
    ensures TablesAgree(a)
  {
    hide Nests, SplitsAt, EntryKey, Mangle, ShortSymbol, SpellingDetermines;
    forall k, i, j | k in a.contracts && 0 <= i < j && j + 2 <= |k| && SplitsAt(k, i) && SplitsAt(k, j) && !Exported(a, NativeSymbol(k))
      ensures !Exported(a, ShortSymbol(k[i + 2..])) || !Exported(a, ShortSymbol(k[j + 2..]))
    {
      SplitEntries(a, k, i, j);
    }
    forall f, g | f in a.contracts && g in a.contracts && Nests(f, g)
      ensures !Exported(a, ShortSymbol(f)) || !Exported(a, ShortSymbol(g))
    {
      var m := FreshModule(a, f);
      NestedEntries(a, m, f, g);
    }
    forall f, g, m: string, x | f in a.contracts && g in a.contracts && Nests(f, g)
        && x in a.exports && |m| <= |x| && QualifiedSymbol(m, f) == x && EntryKey(m, f) !in a.contracts
      ensures Signature(a.contracts[f]) == Signature(a.contracts[g])
    {
      KeySpellsSymbol(m, f);
      NestedEntries(a, m, f, g);
    }
  }

  /** Whatever is spelled alike is built alike if and only if the tables agree. */
  lemma TablesExact(a: Artifact)
    ensures SpellingDetermines(a) <==> TablesAgree(a)
  {
    hide SplitsAt, EntryKey, EntryDriver, TablesAgree;
    if TablesAgree(a) {
      forall m, f, n, g | EntryKey(m, f) == EntryKey(n, g) && EntryDriver(a, m, f).Some? && EntryDriver(a, n, g).Some?
        ensures EntryDriver(a, m, f) == EntryDriver(a, n, g)
      {
        KeySplits(m, f);
        KeySplits(n, g);
        if |m| < |n| {
          SplitsAgree(a, EntryKey(m, f), |m|, |n|);
        } else if |n| < |m| {
          SplitsAgree(a, EntryKey(m, f), |n|, |m|);
        }
      }
    }
    if SpellingDetermines(a) {
      SpellingNeeds(a);
    }
  }

  /** So the session answers every request sequence as one-shot execution does
      exactly when the tables agree, where its runs reveal their drivers. */
  lemma TablesDecide<Exe(!new)>(a: Artifact, t: Toolchain<Exe>)
    requires a.identityOk && t.available
    ensures TablesAgree(a) ==> Transparent(a, t)
    ensures Encodes(t) && Telling(a, t) ==> (Transparent(a, t) <==> TablesAgree(a))
  {
    hide TablesAgree, SpellingDetermines, KeyDetermines, Transparent, Telling;
    TablesExact(a);
    KeyDeterminesExact(a, t);
    SessionTransparent(a, t);
  }
}
