/** The relocatable-object validator for 64-bit ELF, with every read in bounds:
    unless a sum of its 64-bit fields overflows, it accepts exactly the objects
    whose tables define every export. */
module ElfObject {
  import opened Options
  import opened Words

  type Bytes = seq<int>

  predicate IsBytes(bs: Bytes) { forall i | 0 <= i < |bs| :: 0 <= bs[i] < 256 }

  // ---------- Little-endian fields ----------

  /** An unsigned field of `n` bytes. */
  function Field(bs: Bytes, at: nat, n: nat): (v: int)
    requires IsBytes(bs) && at + n <= |bs|
    ensures v >= 0
  {
    FromBytes(bs[at..at + n])
  }

  method ReadField(bs: Bytes, at: nat, n: nat) returns (v: nat)
    requires IsBytes(bs) && at + n <= |bs|
    ensures v == Field(bs, at, n)
  {
    v := 0;
    assert bs[at + n..at + n] == [];
    for k := n downto 0
      invariant v == FromBytes(bs[at + k..at + n])
    {
      assert bs[at + k..at + n] == [bs[at + k]] + bs[at + k + 1..at + n];
      v := bs[at + k] + 256 * v;
    }
  }

  lemma FieldBound(bs: Bytes, at: nat, n: nat)
    requires IsBytes(bs) && at + n <= |bs|
    ensures Field(bs, at, n) < Pow2(8 * n)
  {
    FromBytesBound(bs[at..at + n]);
  }

  // ---------- Names ----------

  function UpToZero(region: Bytes): (r: Bytes)
    ensures r <= region && 0 !in r
    ensures |r| < |region| ==> region[|r|] == 0
  {
    if region == [] || region[0] == 0 then [] else [region[0]] + UpToZero(region[1..])
  }

  datatype Name = Name(text: Bytes) | NoName

  function Min(a: int, b: int): int { if a < b then a else b }

  /** `c_str_at`; `utf8` says which byte strings are well formed. */
  function NameAt(bs: Bytes, start: nat, end: nat, utf8: Bytes -> bool): Name {
    var stop := Min(end, |bs|);
    if start > stop then NoName
    else
      var text := UpToZero(bs[start..stop]);
      if utf8(text) then Name(text) else NoName
  }

  const DOT_TEXT: Bytes := [46, 116, 101, 120, 116]
  const DOT_SYMTAB: Bytes := [46, 115, 121, 109, 116, 97, 98]

  /** The character codes of a string. */
  function Codes(s: string): (r: Bytes)
    ensures |r| == |s|
  {
    seq(|s|, i requires 0 <= i < |s| => s[i] as int)
  }

  lemma SectionTitles()
    ensures DOT_TEXT == Codes(".text") && DOT_SYMTAB == Codes(".symtab")
  {
  }

  // ---------- Section headers ----------

  const SECTION_SIZE: nat := 64
  const SYMBOL_SIZE: nat := 24

  datatype Section = Section(name: nat, kind: nat, offset: nat, size: nat, link: nat, entsize: nat)

  function SectionAt(bs: Bytes, base: nat): Section
    requires IsBytes(bs) && base + SECTION_SIZE <= |bs|
  {
    Section(Field(bs, base, 4), Field(bs, base + 4, 4), Field(bs, base + 24, 8), Field(bs, base + 32, 8),
            Field(bs, base + 40, 4), Field(bs, base + 56, 8))
  }

  method ReadSection(bs: Bytes, base: nat) returns (s: Section)
    requires IsBytes(bs) && base + SECTION_SIZE <= |bs|
    ensures s == SectionAt(bs, base)
  {
    var name := ReadField(bs, base, 4);
    var kind := ReadField(bs, base + 4, 4);
    var offset := ReadField(bs, base + 24, 8);
    var size := ReadField(bs, base + 32, 8);
    var link := ReadField(bs, base + 40, 4);
    var entsize := ReadField(bs, base + 56, 8);
    s := Section(name, kind, offset, size, link, entsize);
  }

  /** The table of section headers. */
  function Table(bs: Bytes): nat
    requires IsBytes(bs) && |bs| >= 64
  {
    Field(bs, 40, 8)
  }

  function Count(bs: Bytes): nat
    requires IsBytes(bs) && |bs| >= 64
  {
    Field(bs, 60, 2)
  }

  /** A byte slice never holds more than `isize::MAX` bytes. */
  predicate Slice(bs: Bytes) { IsBytes(bs) && |bs| < TWO_63 }

  /** Magic, class 2, little-endian, `ET_REL`, the BPF machine number, and a table. */
  predicate Identified(bs: Bytes) {
    && Slice(bs) && |bs| >= 64
    && bs[0] == 0x7f && bs[1] == 69 && bs[2] == 76 && bs[3] == 70
    && bs[4] == 2 && bs[5] == 1
    && Field(bs, 16, 2) == 1 && Field(bs, 18, 2) == 247
    && Table(bs) != 0 && Count(bs) != 0
  }

  predicate HeaderOk(bs: Bytes) { Identified(bs) && Table(bs) + Count(bs) * SECTION_SIZE <= |bs| }

  predicate SectionFits(bs: Bytes, k: nat)
    requires HeaderOk(bs)
  {
    Table(bs) + k * SECTION_SIZE + SECTION_SIZE <= |bs|
  }

  function SectionK(bs: Bytes, k: nat): Section
    requires HeaderOk(bs) && SectionFits(bs, k)
  {
    SectionAt(bs, Table(bs) + k * SECTION_SIZE)
  }

  predicate InFile(bs: Bytes, s: Section) { s.offset != 0 && s.offset + s.size <= |bs| }

  /** The section-name table. */
  predicate NamesOk(bs: Bytes)
    requires HeaderOk(bs)
  {
    SectionFits(bs, Field(bs, 62, 2)) && InFile(bs, SectionK(bs, Field(bs, 62, 2)))
  }

  function SectionName(bs: Bytes, k: nat, utf8: Bytes -> bool): Name
    requires HeaderOk(bs) && NamesOk(bs) && SectionFits(bs, k)
  {
    var names := SectionK(bs, Field(bs, 62, 2));
    NameAt(bs, names.offset + SectionK(bs, k).name, names.offset + names.size, utf8)
  }

  lemma TableFits(bs: Bytes, k: nat)
    requires HeaderOk(bs) && k < Count(bs)
    ensures SectionFits(bs, k)
  {
    assert (k + 1) * SECTION_SIZE <= Count(bs) * SECTION_SIZE;
  }

  predicate IsText(bs: Bytes, k: nat, utf8: Bytes -> bool)
    requires HeaderOk(bs) && NamesOk(bs) && SectionFits(bs, k)
  {
    SectionName(bs, k, utf8) == Name(DOT_TEXT)
  }

  predicate IsSymtab(bs: Bytes, k: nat, utf8: Bytes -> bool)
    requires HeaderOk(bs) && NamesOk(bs) && SectionFits(bs, k)
  {
    SectionName(bs, k, utf8) == Name(DOT_SYMTAB) && SectionK(bs, k).kind == 2
  }

  /** `k` is the last symbol table before section `n`. */
  ghost predicate LastSymtab(bs: Bytes, k: nat, n: nat, utf8: Bytes -> bool)
    requires HeaderOk(bs) && NamesOk(bs) && n <= Count(bs)
  {
    && k < n && SectionFits(bs, k) && IsSymtab(bs, k, utf8)
    && forall j: nat | k < j < n && SectionFits(bs, j) :: !IsSymtab(bs, j, utf8)
  }

  // ---------- Symbols ----------

  predicate SymbolFits(bs: Bytes, table: Section, i: nat) {
    i < table.size / SYMBOL_SIZE && table.offset + i * SYMBOL_SIZE + SYMBOL_SIZE <= |bs|
  }

  /** Symbol `i` is defined in some section, and its name. */
  function DefinedName(bs: Bytes, table: Section, strings: Section, i: nat, utf8: Bytes -> bool): Name
    requires IsBytes(bs) && SymbolFits(bs, table, i)
  {
    var base := table.offset + i * SYMBOL_SIZE;
    if Field(bs, base + 6, 2) == 0 then NoName
    else NameAt(bs, strings.offset + Field(bs, base, 4), strings.offset + strings.size, utf8)
  }

  ghost predicate Defines(bs: Bytes, table: Section, strings: Section, wanted: Bytes, n: nat, utf8: Bytes -> bool)
    requires IsBytes(bs)
  {
    exists i: nat :: i < n && SymbolFits(bs, table, i) && DefinedName(bs, table, strings, i, utf8) == Name(wanted)
  }

  /** The symbol table `k`, its linked strings, and every export among its symbols. */
  ghost predicate SymbolsOk(bs: Bytes, k: nat, exports: seq<Bytes>, utf8: Bytes -> bool)
    requires HeaderOk(bs) && SectionFits(bs, k)
  {
    var table := SectionK(bs, k);
    && table.entsize != 0
    && SectionFits(bs, table.link) && InFile(bs, SectionK(bs, table.link))
    && forall e | e in exports :: Defines(bs, table, SectionK(bs, table.link), e, table.size / SYMBOL_SIZE, utf8)
  }

  /** What acceptance promises. */
  ghost predicate Accepts(bs: Bytes, exports: seq<Bytes>, utf8: Bytes -> bool) {
    && HeaderOk(bs) && NamesOk(bs)
    && TextBefore(bs, Count(bs), utf8)
    && exists k: nat :: LastSymtab(bs, k, Count(bs), utf8) && SymbolsOk(bs, k, exports, utf8)
  }

  // ---------- Sums that overflow ----------

  /** A section whose end is past the range of a `u64`. */
  predicate EndWraps(s: Section) { s.offset != 0 && s.offset + s.size >= TWO_64 }

  /** The symbol table's first entry, or its linked strings, end past that range. */
  predicate SymbolsWrap(bs: Bytes, k: nat)
    requires HeaderOk(bs) && SectionFits(bs, k)
  {
    var table := SectionK(bs, k);
    && table.entsize != 0 && SectionFits(bs, table.link)
    && var strings := SectionK(bs, table.link);
       || EndWraps(strings)
       || (InFile(bs, strings) && table.size >= SYMBOL_SIZE && table.offset + SYMBOL_SIZE >= TWO_64)
  }

  /** The validator, on its way through the header, the section names and the symbol
      table, adds two fields whose sum is no `u64`. */
  ghost predicate Wraps(bs: Bytes, utf8: Bytes -> bool) {
    || (Identified(bs) && Table(bs) + Count(bs) * SECTION_SIZE >= TWO_64)
    || (HeaderOk(bs) && SectionFits(bs, Field(bs, 62, 2)) && EndWraps(SectionK(bs, Field(bs, 62, 2))))
    || (HeaderOk(bs) && NamesOk(bs) && TextBefore(bs, Count(bs), utf8)
        && exists k: nat :: LastSymtab(bs, k, Count(bs), utf8) && SymbolsWrap(bs, k))
  }

  /** Every index into the section table is a field of at most 32 bits. */
  lemma IndicesFit(bs: Bytes)
    requires HeaderOk(bs)
    ensures Count(bs) < TWO_32 && Field(bs, 62, 2) < TWO_32
  {
    hide Field;
    Pow2Values();
    FieldBound(bs, 60, 2);
    FieldBound(bs, 62, 2);
  }

  lemma LinkFits(bs: Bytes, k: nat)
    requires HeaderOk(bs) && SectionFits(bs, k)
    ensures SectionK(bs, k).link < TWO_32
  {
    hide Field;
    Pow2Values();
    FieldBound(bs, Table(bs) + k * SECTION_SIZE + 40, 4);
  }

  /** The table and its entries: any index of 32 bits stays below 2^64. */
  lemma TableSumsFit(bs: Bytes, k: nat)
    requires HeaderOk(bs) && k < TWO_32
    ensures Table(bs) + k * SECTION_SIZE + SECTION_SIZE < TWO_64
  {
    hide Field;
  }

  /** A name inside a section of the file, and the next symbol of one that fits. */
  lemma NameSumsFit(bs: Bytes, at: nat, s: Section)
    requires Slice(bs) && at + 4 <= |bs| && InFile(bs, s)
    ensures s.offset + Field(bs, at, 4) < TWO_64
  {
    hide Field;
    Pow2Values();
    FieldBound(bs, at, 4);
  }

  // ---------- The validator ----------

  /** `Overflowed`: a sum of 64-bit fields passed the range of a `u64`, which panics
      or wraps, depending on how the validator was built. */
  datatype Verdict = Accepted | Rejected | Overflowed

  /** `shoff + index * 64 + 64 <= len`, and the header when it is. */
  method SectionHeader(bs: Bytes, k: nat) returns (s: Option<Section>)
    requires HeaderOk(bs) && k < TWO_32
    ensures s.Some? <==> SectionFits(bs, k)
    ensures s.Some? ==> s.value == SectionK(bs, k)
  {
    var table := ReadField(bs, 40, 8);
    TableSumsFit(bs, k);
    assert table + k * SECTION_SIZE + SECTION_SIZE < TWO_64;
    if table + k * SECTION_SIZE + SECTION_SIZE > |bs| {
      return None;
    }
    var section := ReadSection(bs, table + k * SECTION_SIZE);
    s := Some(section);
  }

  /** The identification and the section header table. */
  method CheckHeader(bs: Bytes) returns (v: Verdict)
    requires Slice(bs)
    ensures v.Accepted? <==> HeaderOk(bs)
    ensures v.Overflowed? <==> Identified(bs) && Table(bs) + Count(bs) * SECTION_SIZE >= TWO_64
  {
    if |bs| < 64 {
      return Rejected;
    }
    if !(bs[0] == 0x7f && bs[1] == 69 && bs[2] == 76 && bs[3] == 70) || bs[4] != 2 || bs[5] != 1 {
      return Rejected;
    }
    var kind := ReadField(bs, 16, 2);
    var machine := ReadField(bs, 18, 2);
    if kind != 1 || machine != 247 {
      return Rejected;
    }
    var table := ReadField(bs, 40, 8);
    var count := ReadField(bs, 60, 2);
    if count == 0 || table == 0 {
      return Rejected;
    }
    if table + count * SECTION_SIZE > |bs| {
      return if table + count * SECTION_SIZE >= TWO_64 then Overflowed else Rejected;
    }
    v := Accepted;
  }

  /** Some section before `n` is named `.text`. */
  ghost predicate TextBefore(bs: Bytes, n: nat, utf8: Bytes -> bool)
    requires HeaderOk(bs) && NamesOk(bs)
  {
    exists k: nat :: k < n && SectionFits(bs, k) && IsText(bs, k, utf8)
  }

  /** The symbol table found so far: the last one before `n`, at `at`. */
  ghost predicate Tracks(bs: Bytes, symtab: Option<Section>, at: nat, n: nat, utf8: Bytes -> bool)
    requires HeaderOk(bs) && NamesOk(bs) && n <= Count(bs)
  {
    match symtab
    case Some(s) => LastSymtab(bs, at, n, utf8) && s == SectionK(bs, at)
    case None => forall k: nat | k < n && SectionFits(bs, k) :: !IsSymtab(bs, k, utf8)
  }

  lemma ScanNext(bs: Bytes, k: nat, symtab: Option<Section>, at: nat, utf8: Bytes -> bool)
    requires HeaderOk(bs) && NamesOk(bs) && k < Count(bs) && SectionFits(bs, k)
    requires Tracks(bs, symtab, at, k, utf8)
    ensures TextBefore(bs, k + 1, utf8) <==> TextBefore(bs, k, utf8) || IsText(bs, k, utf8)
    ensures IsSymtab(bs, k, utf8) ==> Tracks(bs, Some(SectionK(bs, k)), k, k + 1, utf8)
    ensures !IsSymtab(bs, k, utf8) ==> Tracks(bs, symtab, at, k + 1, utf8)
  {
    hide HeaderOk, NamesOk, SectionFits, IsText, IsSymtab, SectionK;
    if TextBefore(bs, k, utf8) {
      var j: nat :| j < k && SectionFits(bs, j) && IsText(bs, j, utf8);
      assert j < k + 1 && SectionFits(bs, j) && IsText(bs, j, utf8);
    }
  }

  method ScanSections(bs: Bytes, names: Section, utf8: Bytes -> bool) returns (text: bool, symtab: Option<Section>, ghost at: nat)
    requires HeaderOk(bs) && NamesOk(bs) && names == SectionK(bs, Field(bs, 62, 2))
    ensures text <==> TextBefore(bs, Count(bs), utf8)
    ensures Tracks(bs, symtab, at, Count(bs), utf8)
  {
    hide Field, NameAt, HeaderOk, SectionAt, TextBefore, Tracks, NamesOk;
    text, symtab, at := false, None, 0;
    var count := ReadCount(bs);
    NothingScanned(bs, utf8);
    IndicesFit(bs);
    for k := 0 to count
      invariant text <==> TextBefore(bs, k, utf8)
      invariant Tracks(bs, symtab, at, k, utf8)
    {
      TableFits(bs, k);
      var header := SectionHeader(bs, k);
      var section := header.value;
      SectionNameFits(bs, names, k);
      assert names.offset + section.name < TWO_64;
      var name := NameAt(bs, names.offset + section.name, names.offset + names.size, utf8);
      assert name == SectionName(bs, k, utf8);
      ScanNext(bs, k, symtab, at, utf8);
      DistinctNames();
      if name == Name(DOT_TEXT) {
        text := true;
      } else if name == Name(DOT_SYMTAB) && section.kind == 2 {
        symtab, at := Some(section), k;
      }
    }
  }

  lemma SectionNameFits(bs: Bytes, names: Section, k: nat)
    requires HeaderOk(bs) && NamesOk(bs) && SectionFits(bs, k) && names == SectionK(bs, Field(bs, 62, 2))
    ensures names.offset + SectionK(bs, k).name < TWO_64
  {
    hide Field;
    NameSumsFit(bs, Table(bs) + k * SECTION_SIZE, names);
  }

  method ReadCount(bs: Bytes) returns (n: nat)
    requires HeaderOk(bs)
    ensures n == Count(bs)
  {
    n := ReadField(bs, 60, 2);
  }

  lemma NothingScanned(bs: Bytes, utf8: Bytes -> bool)
    requires HeaderOk(bs) && NamesOk(bs)
    ensures !TextBefore(bs, 0, utf8) && Tracks(bs, None, 0, 0, utf8)
  {
  }

  lemma DistinctNames()
    ensures DOT_TEXT != DOT_SYMTAB
  {
    assert |DOT_TEXT| == 5 && |DOT_SYMTAB| == 7;
  }

  /** The names of the defined symbols before entry `n`. */
  ghost predicate Collected(bs: Bytes, table: Section, strings: Section, defined: seq<Bytes>, n: nat, utf8: Bytes -> bool)
    requires IsBytes(bs)
  {
    forall e :: e in defined <==> Defines(bs, table, strings, e, n, utf8)
  }

  lemma CollectedNext(bs: Bytes, table: Section, strings: Section, defined: seq<Bytes>, i: nat, utf8: Bytes -> bool)
    requires IsBytes(bs) && SymbolFits(bs, table, i) && Collected(bs, table, strings, defined, i, utf8)
    ensures var name := DefinedName(bs, table, strings, i, utf8);
            Collected(bs, table, strings, if name.Name? then defined + [name.text] else defined, i + 1, utf8)
  {
    hide DefinedName, SymbolFits;
    var name := DefinedName(bs, table, strings, i, utf8);
    var more := if name.Name? then defined + [name.text] else defined;
    forall e
      ensures e in more <==> Defines(bs, table, strings, e, i + 1, utf8)
    {
      if Defines(bs, table, strings, e, i, utf8) {
        var j: nat :| j < i && SymbolFits(bs, table, j) && DefinedName(bs, table, strings, j, utf8) == Name(e);
        assert j < i + 1;
      }
    }
  }

  /** Entries past the end of the file are never read. */
  lemma CollectedEnd(bs: Bytes, table: Section, strings: Section, defined: seq<Bytes>, i: nat, n: nat, utf8: Bytes -> bool)
    requires IsBytes(bs) && Collected(bs, table, strings, defined, i, utf8) && i <= n
    requires forall j: nat | i <= j < n :: !SymbolFits(bs, table, j)
    ensures Collected(bs, table, strings, defined, n, utf8)
  {
    forall e
      ensures Defines(bs, table, strings, e, n, utf8) <==> Defines(bs, table, strings, e, i, utf8)
    {
    }
  }

  method CollectSymbols(bs: Bytes, table: Section, strings: Section, utf8: Bytes -> bool) returns (defined: seq<Bytes>)
    requires Slice(bs) && InFile(bs, strings)
    requires table.size >= SYMBOL_SIZE ==> table.offset + SYMBOL_SIZE < TWO_64
    ensures Collected(bs, table, strings, defined, table.size / SYMBOL_SIZE, utf8)
  {
    hide Field, NameAt;
    defined := [];
    var count := table.size / SYMBOL_SIZE;
    var i := 0;
    while i < count
      invariant 0 <= i <= count
      invariant Collected(bs, table, strings, defined, i, utf8)
      invariant i > 0 ==> table.offset + i * SYMBOL_SIZE <= |bs|
    {
      var base := table.offset + i * SYMBOL_SIZE;
      assert base + SYMBOL_SIZE < TWO_64;
      if base + SYMBOL_SIZE > |bs| {
        CollectedEnd(bs, table, strings, defined, i, count, utf8);
        return;
      }
      CollectedNext(bs, table, strings, defined, i, utf8);
      var name := ReadField(bs, base, 4);
      var section := ReadField(bs, base + 6, 2);
      NameSumsFit(bs, base, strings);
      assert strings.offset + name < TWO_64;
      if section != 0 {
        var text := NameAt(bs, strings.offset + name, strings.offset + strings.size, utf8);
        if text.Name? {
          defined := defined + [text.text];
        }
      }
      i := i + 1;
    }
  }

  lemma HeaderBytes(bs: Bytes)
    requires HeaderOk(bs)
    ensures Slice(bs)
  {
  }

  method AllIn(exports: seq<Bytes>, defined: seq<Bytes>) returns (all: bool)
    ensures all <==> forall e | e in exports :: e in defined
  {
    for i := 0 to |exports|
      invariant forall j | 0 <= j < i :: exports[j] in defined
    {
      if exports[i] !in defined {
        return false;
      }
    }
    all := true;
  }

  method CheckSymbols(bs: Bytes, table: Section, ghost k: nat, exports: seq<Bytes>, utf8: Bytes -> bool) returns (v: Verdict)
    requires HeaderOk(bs) && SectionFits(bs, k) && table == SectionK(bs, k)
    ensures v.Accepted? <==> SymbolsOk(bs, k, exports, utf8) && !SymbolsWrap(bs, k)
    ensures v.Overflowed? <==> SymbolsWrap(bs, k)
  {
    hide Field, NameAt, HeaderOk, SectionAt, Defines;
    if table.entsize == 0 {
      return Rejected;
    }
    LinkFits(bs, k);
    var strings := SectionHeader(bs, table.link);
    if strings.None? || strings.value.offset == 0 {
      return Rejected;
    }
    if strings.value.offset + strings.value.size > |bs| {
      return if strings.value.offset + strings.value.size >= TWO_64 then Overflowed else Rejected;
    }
    if table.size >= SYMBOL_SIZE && table.offset + SYMBOL_SIZE >= TWO_64 {
      return Overflowed;
    }
    HeaderBytes(bs);
    var defined := CollectSymbols(bs, table, strings.value, utf8);
    var all := AllIn(exports, defined);
    v := if all then Accepted else Rejected;
  }

  lemma OneLastSymtab(bs: Bytes, j: nat, k: nat, utf8: Bytes -> bool)
    requires HeaderOk(bs) && NamesOk(bs) && LastSymtab(bs, j, Count(bs), utf8) && LastSymtab(bs, k, Count(bs), utf8)
    ensures j == k
  {
    hide Field, HeaderOk, NamesOk, IsSymtab;
  }

  /** For any byte slice: some sum overflows exactly on `Wraps`, and elsewhere
      acceptance is exactly the stated conditions. */
  method ValidateElf64(bs: Bytes, exports: seq<Bytes>, utf8: Bytes -> bool) returns (v: Verdict)
    requires Slice(bs)
    ensures v.Overflowed? <==> Wraps(bs, utf8)
    ensures v.Accepted? <==> Accepts(bs, exports, utf8) && !Wraps(bs, utf8)
  {
    hide Field, SectionAt, IsText, IsSymtab, SymbolsOk, SymbolsWrap, TextBefore;
    v := CheckHeader(bs);
    if !v.Accepted? {
      return;
    }
    var index := ReadField(bs, 62, 2);
    IndicesFit(bs);
    var names := SectionHeader(bs, index);
    if names.None? || names.value.offset == 0 {
      return Rejected;
    }
    if names.value.offset + names.value.size > |bs| {
      return if names.value.offset + names.value.size >= TWO_64 then Overflowed else Rejected;
    }
    hide HeaderOk;
    var text, symtab, k := ScanSections(bs, names.value, utf8);
    if !text || symtab.None? {
      return Rejected;
    }
    v := CheckSymbols(bs, symtab.value, k, exports, utf8);
    forall j: nat | LastSymtab(bs, j, Count(bs), utf8)
      ensures j == k
    {
      OneLastSymtab(bs, j, k, utf8);
    }
  }
}
