/** An object assembled from any list of symbols: five sections, one after another.
    It is one of the layouts that the validator accepts. */
module ElfAssembly {
  import opened Words
  import opened ElfObject
  import opened ElfLayout

  // ---------- Symbols ----------

  /** A symbol's name and the section it is defined in, 0 for none. */
  datatype Symbol = Symbol(name: Bytes, section: nat)

  function Names(symbols: seq<Symbol>): (r: seq<Bytes>)
    ensures |r| == |symbols|
  {
    seq(|symbols|, i requires 0 <= i < |symbols| => symbols[i].name)
  }

  function Entry(name: nat, section: nat): (r: Bytes)
    ensures |r| == SYMBOL_SIZE
  {
    ToBytes(name, 4) + Zeros(2) + ToBytes(section, 2) + Zeros(16)
  }

  lemma EntryReads(bs: Bytes, base: nat, name: nat, section: nat)
    requires IsBytes(bs) && Part(bs, base, Entry(name, section)) && name < TWO_32 && section < 0x1_0000
    ensures base + SYMBOL_SIZE <= |bs| && Field(bs, base, 4) == name && Field(bs, base + 6, 2) == section
  {
    hide ToBytes, Field, Pow2;
    Pow2Values();
    var e := Entry(name, section);
    assert e[0..4] == ToBytes(name, 4) && e[6..8] == ToBytes(section, 2);
    PartSlice(bs, base, e, 0, 4);
    PartSlice(bs, base, e, 6, 8);
    FieldWritten(bs, base, name, 4);
    FieldWritten(bs, base + 6, section, 2);
  }

  /** The null symbol, then the symbols in order. */
  function Entries(symbols: seq<Symbol>): (r: Bytes)
    ensures |r| == SYMBOL_SIZE * (|symbols| + 1)
  {
    if symbols == [] then Zeros(SYMBOL_SIZE)
    else
      var k := |symbols| - 1;
      Entries(symbols[..k]) + Entry(|Strings(Names(symbols[..k]))|, symbols[k].section)
  }

  lemma {:induction false} EntryStands(symbols: seq<Symbol>, i: nat)
    requires i < |symbols|
    ensures Part(Entries(symbols), SYMBOL_SIZE * (i + 1), Entry(NameOffset(Names(symbols), i), symbols[i].section))
    decreases |symbols|
  {
    hide Entry, Strings;
    var k := |symbols| - 1;
    var before, last := Entries(symbols[..k]), Entry(NameOffset(Names(symbols), k), symbols[k].section);
    assert Names(symbols[..k]) == Names(symbols)[..k];
    assert Entries(symbols) == before + last;
    if i < k {
      EntryStands(symbols[..k], i);
      assert Names(symbols[..k])[..i] == Names(symbols)[..i];
      PartKept(before, last, SYMBOL_SIZE * (i + 1), Entry(NameOffset(Names(symbols), i), symbols[i].section));
    } else {
      PartSplit(before + last, 0, before, last);
    }
  }

  lemma {:induction false} NullStands(symbols: seq<Symbol>)
    ensures Part(Entries(symbols), 0, Zeros(SYMBOL_SIZE))
    decreases |symbols|
  {
    if symbols != [] {
      var k := |symbols| - 1;
      NullStands(symbols[..k]);
      PartKept(Entries(symbols[..k]), Entry(|Strings(Names(symbols[..k]))|, symbols[k].section), 0, Zeros(SYMBOL_SIZE));
    }
  }

  // ---------- The object ----------

  const DOT_STRTAB: Bytes := [46, 115, 116, 114, 116, 97, 98]
  const DOT_SHSTRTAB: Bytes := [46, 115, 104, 115, 116, 114, 116, 97, 98]

  function SectionNames(): seq<Bytes> { [DOT_TEXT, DOT_SYMTAB, DOT_STRTAB, DOT_SHSTRTAB] }

  /** The ELF header of a little-endian 64-bit relocatable BPF object. */
  function FileHeader(table: nat, count: nat, names: nat): (r: Bytes)
    ensures |r| == HEADER_SIZE
  {
    [0x7f, 69, 76, 70, 2, 1] + Zeros(10) + ToBytes(1, 2) + ToBytes(247, 2) + Zeros(20) + ToBytes(table, 8) + Zeros(12)
    + ToBytes(count, 2) + ToBytes(names, 2)
  }

  /** Symbol names, symbols, section names. */
  function Payload(symbols: seq<Symbol>): Bytes {
    Strings(Names(symbols)) + (Entries(symbols) + Strings(SectionNames()))
  }

  function StringsAt(): nat { HEADER_SIZE }
  function EntriesAt(symbols: seq<Symbol>): nat { StringsAt() + |Strings(Names(symbols))| }
  function SectionNamesAt(symbols: seq<Symbol>): nat { EntriesAt(symbols) + |Entries(symbols)| }
  function HeadersAt(symbols: seq<Symbol>): nat { SectionNamesAt(symbols) + |Strings(SectionNames())| }

  /** The null section, an empty `.text`, the symbols, their names, the section names. */
  function Sections(symbols: seq<Symbol>): (r: seq<Section>)
    ensures |r| == 5
  {
    var names := SectionNames();
    [ Section(0, 0, 0, 0, 0, 0),
      Section(NameOffset(names, 0), 1, HEADER_SIZE, 0, 0, 0),
      Section(NameOffset(names, 1), 2, EntriesAt(symbols), |Entries(symbols)|, 3, SYMBOL_SIZE),
      Section(NameOffset(names, 2), 3, StringsAt(), |Strings(Names(symbols))|, 0, 0),
      Section(NameOffset(names, 3), 3, SectionNamesAt(symbols), |Strings(names)|, 0, 0) ]
  }

  function Object(symbols: seq<Symbol>): Bytes {
    FileHeader(HeadersAt(symbols), 5, 4) + (Payload(symbols) + Headers(Sections(symbols)))
  }

  /** Names are zero-free byte strings, section indices are 16-bit, and the file is
      small enough for its 32-bit name offsets. */
  predicate Representable(symbols: seq<Symbol>) {
    && (forall i | 0 <= i < |symbols| :: IsBytes(symbols[i].name) && 0 !in symbols[i].name && symbols[i].section < 0x1_0000)
    && |Object(symbols)| < TWO_32
  }

  lemma ObjectParts(symbols: seq<Symbol>)
    ensures var bs := Object(symbols);
            && Part(bs, 0, FileHeader(HeadersAt(symbols), 5, 4))
            && Part(bs, StringsAt(), Strings(Names(symbols)))
            && Part(bs, EntriesAt(symbols), Entries(symbols))
            && Part(bs, SectionNamesAt(symbols), Strings(SectionNames()))
            && Part(bs, HeadersAt(symbols), Headers(Sections(symbols)))
            && |bs| == HeadersAt(symbols) + 5 * SECTION_SIZE
  {
    hide FileHeader, Strings, Entries, Headers, Sections, SectionNames, Part;
    var bs, head, tail := Object(symbols), FileHeader(HeadersAt(symbols), 5, 4), Payload(symbols) + Headers(Sections(symbols));
    WholeFile(bs);
    PartSplit(bs, 0, head, tail);
    PartSplit(bs, HEADER_SIZE, Payload(symbols), Headers(Sections(symbols)));
    PartSplit(bs, HEADER_SIZE, Strings(Names(symbols)), Entries(symbols) + Strings(SectionNames()));
    PartSplit(bs, EntriesAt(symbols), Entries(symbols), Strings(SectionNames()));
  }

  lemma {:induction false} StringsBytes(names: seq<Bytes>)
    requires AllBytes(names)
    ensures IsBytes(Strings(names))
  {
    if names != [] {
      StringsBytes(names[..|names| - 1]);
    }
  }

  lemma {:induction false} EntriesBytes(symbols: seq<Symbol>)
    ensures IsBytes(Entries(symbols))
  {
    if symbols != [] {
      EntriesBytes(symbols[..|symbols| - 1]);
    }
  }

  lemma {:induction false} HeadersBytes(sections: seq<Section>)
    ensures IsBytes(Headers(sections))
  {
    if sections != [] {
      HeadersBytes(sections[1..]);
    }
  }

  lemma NamesBytes(symbols: seq<Symbol>)
    requires Representable(symbols)
    ensures AllBytes(Names(symbols))
  {
    hide Object;
  }

  lemma SectionNamesBytes()
    ensures AllBytes(SectionNames())
  {
  }

  lemma ObjectBytes(symbols: seq<Symbol>)
    requires Representable(symbols)
    ensures Slice(Object(symbols))
  {
    hide Strings, Entries, Headers, Sections, ToBytes, FileHeader, IsBytes, HeadersAt;
    NamesBytes(symbols);
    StringsBytes(Names(symbols));
    EntriesBytes(symbols);
    SectionNamesBytes();
    StringsBytes(SectionNames());
    HeadersBytes(Sections(symbols));
    BytesAppend(Entries(symbols), Strings(SectionNames()));
    BytesAppend(Strings(Names(symbols)), Entries(symbols) + Strings(SectionNames()));
    BytesAppend(Payload(symbols), Headers(Sections(symbols)));
    FileHeaderBytes(HeadersAt(symbols), 5, 4);
    BytesAppend(FileHeader(HeadersAt(symbols), 5, 4), Payload(symbols) + Headers(Sections(symbols)));
  }

  lemma BytesAppend(a: Bytes, b: Bytes)
    requires IsBytes(a) && IsBytes(b)
    ensures IsBytes(a + b)
  {
  }

  lemma FileHeaderBytes(table: nat, count: nat, names: nat)
    ensures IsBytes(FileHeader(table, count, names))
  {
    hide ToBytes;
  }

  lemma FileHeaderFields(table: nat, count: nat, names: nat)
    ensures var h := FileHeader(table, count, names);
            && h[0] == 0x7f && h[1] == 69 && h[2] == 76 && h[3] == 70 && h[4] == 2 && h[5] == 1
            && h[16..18] == ToBytes(1, 2) && h[18..20] == ToBytes(247, 2)
            && h[40..48] == ToBytes(table, 8) && h[60..62] == ToBytes(count, 2) && h[62..64] == ToBytes(names, 2)
  {
    hide ToBytes;
  }

  lemma SectionsFit(symbols: seq<Symbol>, k: nat)
    requires Representable(symbols) && k < 5
    ensures SectionRepresentable(Sections(symbols)[k])
  {
    hide Object, Strings, Entries;
    ObjectParts(symbols);
    NameStands(SectionNames(), 0);
    NameStands(SectionNames(), 1);
    NameStands(SectionNames(), 2);
    NameStands(SectionNames(), 3);
  }

  // ---------- Acceptance ----------

  /** The object as a layout. */
  function ObjectLayout(symbols: seq<Symbol>): Layout {
    Layout(FileHeader(HeadersAt(symbols), 5, 4), HeadersAt(symbols),
           seq(5, k requires 0 <= k < 5 => Header(Sections(symbols)[k])),
           [[], [], Entries(symbols), Strings(Names(symbols)), Strings(SectionNames())], 4)
  }

  lemma HeaderReadsBack(table: nat, count: nat, names: nat)
    requires table < TWO_64 && count < 0x1_0000 && names < 0x1_0000
    ensures HeaderSays(FileHeader(table, count, names), table, count, names)
  {
    hide ToBytes, Field, Part, Pow2, FileHeader;
    var h := FileHeader(table, count, names);
    FileHeaderFields(table, count, names);
    FileHeaderBytes(table, count, names);
    WholeFile(h);
    Pow2Values();
    PartSlice(h, 0, h, 16, 18);
    PartSlice(h, 0, h, 18, 20);
    PartSlice(h, 0, h, 40, 48);
    PartSlice(h, 0, h, 60, 62);
    PartSlice(h, 0, h, 62, 64);
    FieldWritten(h, 16, 1, 2);
    FieldWritten(h, 18, 247, 2);
    FieldWritten(h, 40, table, 8);
    FieldWritten(h, 60, count, 2);
    FieldWritten(h, 62, names, 2);
  }

  lemma SectionHeaderBytes(s: Section)
    ensures IsBytes(Header(s))
  {
    hide ToBytes;
  }

  lemma ObjectShaped(symbols: seq<Symbol>)
    requires Representable(symbols)
    ensures Shaped(ObjectLayout(symbols))
    ensures forall k | 0 <= k < 5 :: SectionOf(ObjectLayout(symbols), k) == Sections(symbols)[k]
  {
    hide Object, Strings, Entries, Header, FileHeader, Sections, SectionAt, Part, IsBytes, HeaderSays;
    ObjectParts(symbols);
    HeaderReadsBack(HeadersAt(symbols), 5, 4);
    NamesBytes(symbols);
    StringsBytes(Names(symbols));
    EntriesBytes(symbols);
    SectionNamesBytes();
    StringsBytes(SectionNames());
    NoBytes();
    forall k: nat | k < 5
      ensures IsBytes(Header(Sections(symbols)[k])) && SectionAt(Header(Sections(symbols)[k]), 0) == Sections(symbols)[k]
    {
      SectionHeaderBytes(Sections(symbols)[k]);
      SectionsFit(symbols, k);
      WholeFile(Header(Sections(symbols)[k]));
      HeaderReads(Header(Sections(symbols)[k]), 0, Sections(symbols)[k]);
    }
  }

  lemma NoBytes()
    ensures IsBytes([])
  {
  }

  lemma ObjectLaidOut(symbols: seq<Symbol>)
    requires Representable(symbols)
    ensures Shaped(ObjectLayout(symbols)) && LaidOut(Object(symbols), ObjectLayout(symbols))
  {
    hide Object, Strings, Entries, Header, Headers, FileHeader, SectionAt, SectionOf, IsBytes, Shaped, Part;
    var bs, l := Object(symbols), ObjectLayout(symbols);
    ObjectShaped(symbols);
    ObjectBytes(symbols);
    ObjectParts(symbols);
    forall k: nat | k < 5
      ensures Part(bs, l.table + k * SECTION_SIZE, l.headers[k])
    {
      HeaderIn(bs, HeadersAt(symbols), Sections(symbols), k);
    }
    Nothing(bs, 0);
    Nothing(bs, HEADER_SIZE);
  }

  lemma Nothing(bs: Bytes, at: nat)
    requires at <= |bs|
    ensures Part(bs, at, [])
  {
  }

  /** The one symbol table is section 2, and section 1 is the text. */
  lemma ObjectComplete(symbols: seq<Symbol>, utf8: Bytes -> bool)
    requires Representable(symbols) && utf8(DOT_TEXT) && utf8(DOT_SYMTAB)
    ensures Shaped(ObjectLayout(symbols)) && Complete(ObjectLayout(symbols), 2, utf8)
  {
    hide Object, Strings, Entries, Header, FileHeader, SectionAt, SectionOf, Shaped, NameIn, NameOffset;
    var l := ObjectLayout(symbols);
    ObjectShaped(symbols);
    NameReads(SectionNames(), 0, utf8);
    NameReads(SectionNames(), 1, utf8);
    assert TitleOf(l, 1, utf8) == Name(DOT_TEXT) && TitleOf(l, 2, utf8) == Name(DOT_SYMTAB);
  }

  predicate DefinedIn(symbols: seq<Symbol>, wanted: Bytes, utf8: Bytes -> bool) {
    exists i | 0 <= i < |symbols| :: symbols[i].section != 0 && symbols[i].name == wanted && utf8(wanted)
  }

  /** What the validator reads of symbol `i`. */
  lemma ObjectSymbol(symbols: seq<Symbol>, i: nat, utf8: Bytes -> bool)
    requires Representable(symbols) && i < |symbols|
    ensures IsBytes(Entries(symbols)) && EntryName(Entries(symbols), Strings(Names(symbols)), i + 1, utf8)
         == if symbols[i].section != 0 && utf8(symbols[i].name) then Name(symbols[i].name) else NoName
  {
    hide Object, Strings, Entries, Field, Part, Entry, NameIn, NameOffset, Names, Representable, IsBytes;
    assert SYMBOL_SIZE * (i + 1) == (i + 1) * SYMBOL_SIZE && (i + 1) < |Entries(symbols)| / SYMBOL_SIZE;
    EntriesBytes(symbols);
    EntryStands(symbols, i);
    OffsetSmall(symbols, i);
    SymbolFields(symbols, i);
    EntryReads(Entries(symbols), SYMBOL_SIZE * (i + 1), NameOffset(Names(symbols), i), symbols[i].section);
    NameReads(Names(symbols), i, utf8);
  }

  lemma SymbolFields(symbols: seq<Symbol>, i: nat)
    requires Representable(symbols) && i < |symbols|
    ensures symbols[i].section < 0x1_0000 && 0 !in Names(symbols)[i] && Names(symbols)[i] == symbols[i].name
  {
    hide Object;
  }

  lemma OffsetSmall(symbols: seq<Symbol>, i: nat)
    requires Representable(symbols) && i < |symbols|
    ensures NameOffset(Names(symbols), i) < TWO_32
  {
    hide Object, Strings, Entries;
    ObjectParts(symbols);
    NameStands(Names(symbols), i);
  }

  /** The null symbol is undefined. */
  lemma ObjectNull(symbols: seq<Symbol>, utf8: Bytes -> bool)
    ensures IsBytes(Entries(symbols)) && EntryName(Entries(symbols), Strings(Names(symbols)), 0, utf8) == NoName
  {
    hide Strings, Entries, Part;
    EntriesBytes(symbols);
    NullStands(symbols);
    PartSlice(Entries(symbols), 0, Zeros(SYMBOL_SIZE), 6, 8);
    assert ToBytes(0, 2) == Zeros(SYMBOL_SIZE)[6..8] by {
      assert ToBytes(0, 2) == [0] + ToBytes(0, 1) && ToBytes(0, 1) == [0] + ToBytes(0, 0);
    }
    Pow2Values();
    FieldWritten(Entries(symbols), 6, 0, 2);
  }

  /** The validator finds exactly the names of the symbols that are defined. */
  lemma ObjectDefines(symbols: seq<Symbol>, wanted: Bytes, utf8: Bytes -> bool)
    requires Representable(symbols)
    ensures IsBytes(Entries(symbols)) && (Exports(Entries(symbols), Strings(Names(symbols)), wanted, utf8) <==> DefinedIn(symbols, wanted, utf8))
  {
    hide Object, Strings, Entries, EntryName, Representable;
    ObjectNull(symbols, utf8);
    var es, strings := Entries(symbols), Strings(Names(symbols));
    forall i: nat | i < |symbols|
      ensures EntryName(es, strings, i + 1, utf8) == if symbols[i].section != 0 && utf8(symbols[i].name) then Name(symbols[i].name) else NoName
    {
      ObjectSymbol(symbols, i, utf8);
    }
    if Exports(es, strings, wanted, utf8) {
      var j: nat :| j < |es| / SYMBOL_SIZE && EntryName(es, strings, j, utf8) == Name(wanted);
      assert j > 0 && symbols[j - 1].name == wanted;
    }
    if DefinedIn(symbols, wanted, utf8) {
      var i :| 0 <= i < |symbols| && symbols[i].section != 0 && symbols[i].name == wanted && utf8(wanted);
      assert EntryName(es, strings, i + 1, utf8) == Name(wanted);
    }
  }

  /** Every object made this way passes exactly when it defines each export. */
  lemma ObjectAccepted(symbols: seq<Symbol>, exports: seq<Bytes>, utf8: Bytes -> bool)
    requires Representable(symbols) && utf8(DOT_TEXT) && utf8(DOT_SYMTAB)
    ensures Slice(Object(symbols)) && !Wraps(Object(symbols), utf8)
    ensures Accepts(Object(symbols), exports, utf8) <==> forall e | e in exports :: DefinedIn(symbols, e, utf8)
  {
    hide Object, Strings, Entries, FileHeader, SectionAt, SectionOf, Shaped, Complete, Exports, DefinedIn, Accepts, Wraps;
    EntriesBytes(symbols);
    ObjectShaped(symbols);
    ObjectLaidOut(symbols);
    ObjectComplete(symbols, utf8);
    LayoutAccepted(Object(symbols), ObjectLayout(symbols), 2, exports, utf8);
    forall e
      ensures Exports(Entries(symbols), Strings(Names(symbols)), e, utf8) <==> DefinedIn(symbols, e, utf8)
    {
      ObjectDefines(symbols, e, utf8);
    }
  }
}
