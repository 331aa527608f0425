/** Objects laid out as chapter 4 of the System V gABI prescribes, their sections in
    any order, at any offsets and with any contents: the validator accepts one exactly
    when its symbol table defines every export. */
module ElfLayout {
  import opened Words
  import opened ElfObject

  // ---------- Parts of a file ----------

  function Zeros(n: nat): (r: Bytes)
    ensures |r| == n
  {
    seq(n, _ => 0)
  }

  /** `part` stands in the file at `at`. */
  predicate Part(bs: Bytes, at: nat, part: Bytes) { at + |part| <= |bs| && bs[at..at + |part|] == part }

  lemma PartSplit(bs: Bytes, at: nat, a: Bytes, b: Bytes)
    requires Part(bs, at, a + b)
    ensures Part(bs, at, a) && Part(bs, at + |a|, b)
  {
    assert bs[at..at + |a|] == (a + b)[..|a|];
    assert bs[at + |a|..at + |a| + |b|] == (a + b)[|a|..];
  }

  lemma PartSlice(bs: Bytes, at: nat, part: Bytes, lo: nat, hi: nat)
    requires Part(bs, at, part) && lo <= hi <= |part|
    ensures Part(bs, at + lo, part[lo..hi])
  {
    assert part == part[..lo] + (part[lo..hi] + part[hi..]);
    PartSplit(bs, at, part[..lo], part[lo..hi] + part[hi..]);
    PartSplit(bs, at + lo, part[lo..hi], part[hi..]);
  }

  lemma WholeFile(bs: Bytes)
    ensures Part(bs, 0, bs)
  {
  }

  lemma PartKept(a: Bytes, b: Bytes, at: nat, part: Bytes)
    requires Part(a, at, part)
    ensures Part(a + b, at, part)
  {
    assert (a + b)[at..at + |part|] == a[at..at + |part|];
  }

  /** A field written little-endian reads back. */
  lemma FieldWritten(bs: Bytes, at: nat, v: nat, n: nat)
    requires IsBytes(bs) && Part(bs, at, ToBytes(v, n)) && v < Pow2(8 * n)
    ensures Field(bs, at, n) == v
  {
    BytesRoundTrip(v, n);
  }

  // ---------- Section headers ----------

  const HEADER_SIZE: nat := 64

  function Header(s: Section): (r: Bytes)
    ensures |r| == SECTION_SIZE
  {
    ToBytes(s.name, 4) + ToBytes(s.kind, 4) + Zeros(16) + ToBytes(s.offset, 8) + ToBytes(s.size, 8)
    + ToBytes(s.link, 4) + Zeros(12) + ToBytes(s.entsize, 8)
  }

  predicate SectionRepresentable(s: Section) {
    && s.name < TWO_32 && s.kind < TWO_32 && s.link < TWO_32
    && s.offset < TWO_64 && s.size < TWO_64 && s.entsize < TWO_64
  }

  lemma HeaderFields(s: Section)
    ensures var h := Header(s);
            && h[0..4] == ToBytes(s.name, 4) && h[4..8] == ToBytes(s.kind, 4)
            && h[24..32] == ToBytes(s.offset, 8) && h[32..40] == ToBytes(s.size, 8)
            && h[40..44] == ToBytes(s.link, 4) && h[56..64] == ToBytes(s.entsize, 8)
  {
    hide ToBytes;
  }

  /** A section header written by the table reads back. */
  lemma HeaderReads(bs: Bytes, base: nat, s: Section)
    requires IsBytes(bs) && Part(bs, base, Header(s)) && SectionRepresentable(s)
    ensures base + SECTION_SIZE <= |bs| && SectionAt(bs, base) == s
  {
    hide ToBytes, Field, Header, Pow2;
    Pow2Values();
    HeaderFields(s);
    var h := Header(s);
    PartSlice(bs, base, h, 0, 4);
    PartSlice(bs, base, h, 4, 8);
    PartSlice(bs, base, h, 24, 32);
    PartSlice(bs, base, h, 32, 40);
    PartSlice(bs, base, h, 40, 44);
    PartSlice(bs, base, h, 56, 64);
    FieldWritten(bs, base, s.name, 4);
    FieldWritten(bs, base + 4, s.kind, 4);
    FieldWritten(bs, base + 24, s.offset, 8);
    FieldWritten(bs, base + 32, s.size, 8);
    FieldWritten(bs, base + 40, s.link, 4);
    FieldWritten(bs, base + 56, s.entsize, 8);
  }

  function Headers(sections: seq<Section>): (r: Bytes)
    ensures |r| == SECTION_SIZE * |sections|
  {
    if sections == [] then [] else Header(sections[0]) + Headers(sections[1..])
  }

  lemma {:induction false} HeaderIn(bs: Bytes, at: nat, sections: seq<Section>, k: nat)
    requires Part(bs, at, Headers(sections)) && k < |sections|
    ensures Part(bs, at + k * SECTION_SIZE, Header(sections[k]))
    decreases k
  {
    hide Header, Part;
    PartSplit(bs, at, Header(sections[0]), Headers(sections[1..]));
    if k > 0 {
      HeaderIn(bs, at + SECTION_SIZE, sections[1..], k - 1);
    }
  }

  // ---------- String tables ----------

  /** A leading zero, then each name with a zero behind it. */
  function Strings(names: seq<Bytes>): (r: Bytes)
    ensures |r| > 0
  {
    if names == [] then [0] else Strings(names[..|names| - 1]) + (names[|names| - 1] + [0])
  }

  /** Where name `i` begins. */
  function NameOffset(names: seq<Bytes>, i: nat): nat
    requires i <= |names|
  {
    |Strings(names[..i])|
  }

  /** Each name stands at its offset, with a zero behind it. */
  lemma {:induction false} NameStands(names: seq<Bytes>, i: nat)
    requires i < |names|
    ensures Part(Strings(names), NameOffset(names, i), names[i] + [0])
    decreases |names|
  {
    var k := |names| - 1;
    var before, last := Strings(names[..k]), names[k] + [0];
    assert Strings(names) == before + last;
    if i < k {
      NameStands(names[..k], i);
      assert names[..k][..i] == names[..i];
      PartKept(before, last, NameOffset(names, i), names[i] + [0]);
    } else {
      PartSplit(before + last, 0, before, last);
    }
  }

  lemma {:induction false} StopsAtZero(region: Bytes, name: Bytes)
    requires 0 !in name && name + [0] <= region
    ensures UpToZero(region) == name
    decreases |name|
  {
    if name != [] {
      assert region[0] == (name + [0])[0] == name[0];
      assert name[1..] + [0] == (name + [0])[1..];
      assert region[1..][..|name|] == region[..|name| + 1][1..];
      StopsAtZero(region[1..], name[1..]);
    } else {
      assert region[0] == (name + [0])[0];
    }
  }

  /** The name at an offset of a string table. */
  function NameIn(table: Bytes, at: nat, utf8: Bytes -> bool): Name {
    if at > |table| then NoName
    else
      var text := UpToZero(table[at..]);
      if utf8(text) then Name(text) else NoName
  }

  /** Each name of a table is read at its offset, up to its zero. */
  lemma NameReads(names: seq<Bytes>, i: nat, utf8: Bytes -> bool)
    requires i < |names| && 0 !in names[i]
    ensures NameIn(Strings(names), NameOffset(names, i), utf8) == if utf8(names[i]) then Name(names[i]) else NoName
  {
    hide Strings, NameOffset;
    var table, off := Strings(names), NameOffset(names, i);
    NameStands(names, i);
    assert table[off..][..|names[i]| + 1] == table[off..off + |names[i]| + 1];
    StopsAtZero(table[off..], names[i]);
  }

  // ---------- Layouts ----------

  /** An object by its pieces: the ELF header, where the section headers begin, each
      section's header and its bytes in the file, and the index of the section that
      holds the section names. Bytes that nothing reads are free. */
  datatype Layout = Layout(header: Bytes, table: nat, headers: seq<Bytes>, contents: seq<Bytes>, names: nat)

  predicate AllBytes(parts: seq<Bytes>) { forall i | 0 <= i < |parts| :: IsBytes(parts[i]) }

  /** The header is that of a little-endian 64-bit relocatable BPF object, and names
      the table, the number of its entries and the entry of the section names. */
  predicate HeaderSays(h: Bytes, table: nat, count: nat, names: nat) {
    && IsBytes(h) && |h| == HEADER_SIZE
    && h[0] == 0x7f && h[1] == 69 && h[2] == 76 && h[3] == 70 && h[4] == 2 && h[5] == 1
    && Field(h, 16, 2) == 1 && Field(h, 18, 2) == 247
    && Field(h, 40, 8) == table && Field(h, 60, 2) == count && Field(h, 62, 2) == names
  }

  predicate Shaped(l: Layout) {
    && l.table != 0 && |l.headers| == |l.contents| && l.names < |l.headers|
    && HeaderSays(l.header, l.table, |l.headers|, l.names)
    && AllBytes(l.headers) && AllBytes(l.contents)
    && forall k | 0 <= k < |l.headers| :: |l.headers[k]| == SECTION_SIZE
  }

  function SectionOf(l: Layout, k: nat): Section
    requires Shaped(l) && k < |l.headers|
  {
    SectionAt(l.headers[k], 0)
  }

  /** The file holds every piece at its place. */
  predicate LaidOut(bs: Bytes, l: Layout)
    requires Shaped(l)
  {
    && Slice(bs) && Part(bs, 0, l.header)
    && (forall k | 0 <= k < |l.headers| :: Part(bs, l.table + k * SECTION_SIZE, l.headers[k]))
    && (forall k | 0 <= k < |l.contents| :: Part(bs, SectionOf(l, k).offset, l.contents[k]))
  }

  /** All of section `k` is in the file. */
  predicate InObject(l: Layout, k: nat)
    requires Shaped(l)
  {
    k < |l.headers| && SectionOf(l, k).offset != 0 && |l.contents[k]| == SectionOf(l, k).size
  }

  function TitleOf(l: Layout, k: nat, utf8: Bytes -> bool): Name
    requires Shaped(l) && k < |l.headers|
  {
    NameIn(l.contents[l.names], SectionOf(l, k).name, utf8)
  }

  predicate SymtabIn(l: Layout, k: nat, utf8: Bytes -> bool)
    requires Shaped(l) && k < |l.headers|
  {
    TitleOf(l, k, utf8) == Name(DOT_SYMTAB) && SectionOf(l, k).kind == 2
  }

  /** Some section is the text, `s` is the last symbol table, and the section names,
      the symbols and the strings they are linked to are in the file. */
  ghost predicate Complete(l: Layout, s: nat, utf8: Bytes -> bool)
    requires Shaped(l)
  {
    && InObject(l, l.names)
    && (exists k: nat :: k < |l.headers| && TitleOf(l, k, utf8) == Name(DOT_TEXT))
    && s < |l.headers| && SymtabIn(l, s, utf8)
    && (forall k | s < k < |l.headers| :: !SymtabIn(l, k, utf8))
    && SectionOf(l, s).entsize != 0 && |l.contents[s]| == SectionOf(l, s).size
    && InObject(l, SectionOf(l, s).link)
  }

  /** Entry `i` of the symbol table: defined in some section, and under which name. */
  function EntryName(symbols: Bytes, strings: Bytes, i: nat, utf8: Bytes -> bool): Name
    requires IsBytes(symbols) && i < |symbols| / SYMBOL_SIZE
  {
    if Field(symbols, i * SYMBOL_SIZE + 6, 2) == 0 then NoName else NameIn(strings, Field(symbols, i * SYMBOL_SIZE, 4), utf8)
  }

  ghost predicate Exports(symbols: Bytes, strings: Bytes, wanted: Bytes, utf8: Bytes -> bool)
    requires IsBytes(symbols)
  {
    exists i: nat :: i < |symbols| / SYMBOL_SIZE && EntryName(symbols, strings, i, utf8) == Name(wanted)
  }

  // ---------- What the validator reads of a layout ----------

  lemma FieldIn(bs: Bytes, at: nat, part: Bytes, off: nat, n: nat)
    requires IsBytes(bs) && IsBytes(part) && Part(bs, at, part) && off + n <= |part|
    ensures at + off + n <= |bs| && Field(bs, at + off, n) == Field(part, off, n)
  {
    PartSlice(bs, at, part, off, off + n);
  }

  lemma NameInFile(bs: Bytes, at: nat, table: Bytes, off: nat, utf8: Bytes -> bool)
    requires Part(bs, at, table)
    ensures NameAt(bs, at + off, at + |table|, utf8) == NameIn(table, off, utf8)
  {
    if off <= |table| {
      PartSlice(bs, at, table, off, |table|);
    }
  }

  lemma LayoutSection(bs: Bytes, l: Layout, k: nat)
    requires Shaped(l) && LaidOut(bs, l) && k < |l.headers|
    ensures l.table + k * SECTION_SIZE + SECTION_SIZE <= |bs| && SectionAt(bs, l.table + k * SECTION_SIZE) == SectionOf(l, k)
  {
    hide Field, Part;
    var base, h := l.table + k * SECTION_SIZE, l.headers[k];
    PartEnds(bs, base, h);
    FieldIn(bs, base, h, 0, 4);
    FieldIn(bs, base, h, 4, 4);
    FieldIn(bs, base, h, 24, 8);
    FieldIn(bs, base, h, 32, 8);
    FieldIn(bs, base, h, 40, 4);
    FieldIn(bs, base, h, 56, 8);
  }

  lemma PartEnds(bs: Bytes, at: nat, part: Bytes)
    requires Part(bs, at, part)
    ensures at + |part| <= |bs| && forall i | 0 <= i < |part| :: bs[at + i] == part[i]
  {
    forall i | 0 <= i < |part|
      ensures bs[at + i] == part[i]
    {
      assert bs[at..at + |part|][i] == bs[at + i];
    }
  }

  lemma LayoutHeader(bs: Bytes, l: Layout)
    requires Shaped(l) && LaidOut(bs, l)
    ensures HeaderOk(bs) && Table(bs) == l.table && Count(bs) == |l.headers| && Field(bs, 62, 2) == l.names
  {
    hide Field, Part, SectionOf;
    PartEnds(bs, 0, l.header);
    FieldIn(bs, 0, l.header, 16, 2);
    FieldIn(bs, 0, l.header, 18, 2);
    FieldIn(bs, 0, l.header, 40, 8);
    FieldIn(bs, 0, l.header, 60, 2);
    FieldIn(bs, 0, l.header, 62, 2);
    PartEnds(bs, l.table + (|l.headers| - 1) * SECTION_SIZE, l.headers[|l.headers| - 1]);
  }

  /** Every section reads as its own header, under its own name. */
  lemma LayoutTitles(bs: Bytes, l: Layout, k: nat, utf8: Bytes -> bool)
    requires Shaped(l) && LaidOut(bs, l) && InObject(l, l.names) && k < |l.headers|
    ensures HeaderOk(bs) && NamesOk(bs) && SectionFits(bs, k)
    ensures SectionK(bs, k) == SectionOf(l, k) && SectionName(bs, k, utf8) == TitleOf(l, k, utf8)
  {
    hide Field, Part, SectionAt, NameAt, NameIn;
    LayoutHeader(bs, l);
    LayoutSection(bs, l, k);
    LayoutSection(bs, l, l.names);
    var names := SectionOf(l, l.names);
    PartEnds(bs, names.offset, l.contents[l.names]);
    NameInFile(bs, names.offset, l.contents[l.names], SectionOf(l, k).name, utf8);
  }

  /** The symbol table the validator settles on. */
  lemma LayoutTables(bs: Bytes, l: Layout, s: nat, utf8: Bytes -> bool)
    requires Shaped(l) && LaidOut(bs, l) && Complete(l, s, utf8)
    ensures HeaderOk(bs) && NamesOk(bs) && Count(bs) == |l.headers| && TextBefore(bs, Count(bs), utf8)
    ensures forall k: nat :: LastSymtab(bs, k, Count(bs), utf8) <==> k == s
  {
    hide Field, Part, SectionAt, SectionOf, TitleOf, HeaderOk, NamesOk, SectionFits, SectionK, SectionName, LaidOut, Shaped, InObject;
    LayoutHeader(bs, l);
    LayoutTitles(bs, l, s, utf8);
    forall k: nat | k < |l.headers|
      ensures SectionFits(bs, k) && (IsText(bs, k, utf8) <==> TitleOf(l, k, utf8) == Name(DOT_TEXT))
      ensures IsSymtab(bs, k, utf8) <==> SymtabIn(l, k, utf8)
    {
      LayoutTitles(bs, l, k, utf8);
    }
    var text: nat :| text < |l.headers| && TitleOf(l, text, utf8) == Name(DOT_TEXT);
    assert IsText(bs, text, utf8);
    hide IsSymtab, SymtabIn;
  }

  lemma LayoutEntry(bs: Bytes, l: Layout, s: nat, i: nat, utf8: Bytes -> bool)
    requires Shaped(l) && LaidOut(bs, l) && Complete(l, s, utf8) && i < SectionOf(l, s).size / SYMBOL_SIZE
    ensures var table, t := SectionOf(l, s), SectionOf(l, s).link;
            && IsBytes(bs) && SymbolFits(bs, table, i)
            && DefinedName(bs, table, SectionOf(l, t), i, utf8) == EntryName(l.contents[s], l.contents[t], i, utf8)
  {
    hide Field, Part, SectionAt, NameAt, NameIn, TitleOf, SymtabIn;
    var table, t := SectionOf(l, s), SectionOf(l, s).link;
    assert i * SYMBOL_SIZE + SYMBOL_SIZE <= table.size;
    FieldIn(bs, table.offset, l.contents[s], i * SYMBOL_SIZE, 4);
    FieldIn(bs, table.offset, l.contents[s], i * SYMBOL_SIZE + 6, 2);
    PartEnds(bs, table.offset, l.contents[s]);
    NameInFile(bs, SectionOf(l, t).offset, l.contents[t], Field(l.contents[s], i * SYMBOL_SIZE, 4), utf8);
  }

  /** An export is found exactly when an entry of the table defines it. */
  lemma LayoutDefines(bs: Bytes, l: Layout, s: nat, wanted: Bytes, utf8: Bytes -> bool)
    requires Shaped(l) && LaidOut(bs, l) && Complete(l, s, utf8)
    ensures var table, t := SectionOf(l, s), SectionOf(l, s).link;
            && IsBytes(bs)
            && (Defines(bs, table, SectionOf(l, t), wanted, table.size / SYMBOL_SIZE, utf8)
                <==> Exports(l.contents[s], l.contents[t], wanted, utf8))
  {
    hide DefinedName, EntryName, SymbolFits, SectionOf, TitleOf, SymtabIn, Part;
    var table, t := SectionOf(l, s), SectionOf(l, s).link;
    forall i: nat | i < table.size / SYMBOL_SIZE
      ensures SymbolFits(bs, table, i)
      ensures DefinedName(bs, table, SectionOf(l, t), i, utf8) == EntryName(l.contents[s], l.contents[t], i, utf8)
    {
      LayoutEntry(bs, l, s, i, utf8);
    }
  }

  /** No sum on the way overflows. */
  lemma LayoutFits(bs: Bytes, l: Layout, s: nat, utf8: Bytes -> bool)
    requires Shaped(l) && LaidOut(bs, l) && Complete(l, s, utf8)
    ensures !Wraps(bs, utf8)
  {
    hide Field, Part, SectionAt, SectionOf, TitleOf, SymtabIn, HeaderSays, TextBefore, LastSymtab, SectionName;
    LayoutTables(bs, l, s, utf8);
    LayoutHeader(bs, l);
    LayoutSection(bs, l, l.names);
    LayoutSection(bs, l, s);
    LayoutSection(bs, l, SectionOf(l, s).link);
    PartEnds(bs, SectionOf(l, l.names).offset, l.contents[l.names]);
    PartEnds(bs, SectionOf(l, s).offset, l.contents[s]);
    PartEnds(bs, SectionOf(l, SectionOf(l, s).link).offset, l.contents[SectionOf(l, s).link]);
  }

  /** Any complete layout is accepted exactly when its symbol table defines each export. */
  lemma LayoutAccepted(bs: Bytes, l: Layout, s: nat, exports: seq<Bytes>, utf8: Bytes -> bool)
    requires Shaped(l) && LaidOut(bs, l) && Complete(l, s, utf8)
    ensures !Wraps(bs, utf8)
    ensures Accepts(bs, exports, utf8) <==>
              forall e | e in exports :: Exports(l.contents[s], l.contents[SectionOf(l, s).link], e, utf8)
  {
    LayoutFits(bs, l, s, utf8);
    LayoutTables(bs, l, s, utf8);
    LayoutSymbols(bs, l, s, exports, utf8);
    hide Field, SectionAt, SectionOf, Exports, SymbolsOk, HeaderOk, NamesOk, SectionFits, SectionK, TextBefore, LastSymtab, LaidOut, Shaped, Complete, Wraps;
    assert LastSymtab(bs, s, Count(bs), utf8);
  }

  lemma LayoutSymbols(bs: Bytes, l: Layout, s: nat, exports: seq<Bytes>, utf8: Bytes -> bool)
    requires Shaped(l) && LaidOut(bs, l) && Complete(l, s, utf8)
    ensures HeaderOk(bs) && SectionFits(bs, s)
    ensures SymbolsOk(bs, s, exports, utf8) <==>
              forall e | e in exports :: Exports(l.contents[s], l.contents[SectionOf(l, s).link], e, utf8)
  {
    hide Field, Part, SectionAt, SectionOf, TitleOf, SymtabIn, Defines, Exports, HeaderSays;
    LayoutHeader(bs, l);
    LayoutSection(bs, l, s);
    LayoutSection(bs, l, SectionOf(l, s).link);
    PartEnds(bs, SectionOf(l, SectionOf(l, s).link).offset, l.contents[SectionOf(l, s).link]);
    forall e
      ensures Defines(bs, SectionOf(l, s), SectionOf(l, SectionOf(l, s).link), e, SectionOf(l, s).size / SYMBOL_SIZE, utf8)
         <==> Exports(l.contents[s], l.contents[SectionOf(l, s).link], e, utf8)
    {
      LayoutDefines(bs, l, s, e, utf8);
    }
  }

  // ---------- Files from pieces ----------

  datatype Piece = Piece(at: nat, bytes: Bytes)

  /** The pieces of a layout: its header, its section headers, its contents. */
  function Pieces(l: Layout): (r: seq<Piece>)
    requires Shaped(l)
    ensures |r| == 1 + 2 * |l.headers|
  {
    var n := |l.headers|;
    [Piece(0, l.header)]
    + seq(n, k requires 0 <= k < n => Piece(l.table + k * SECTION_SIZE, l.headers[k]))
    + seq(n, k requires 0 <= k < n => Piece(SectionOf(l, k).offset, l.contents[k]))
  }

  function End(p: Piece): nat { p.at + |p.bytes| }

  /** Pieces inside the file that do not overlap. */
  predicate Disjoint(pieces: seq<Piece>, size: nat) {
    && (forall i | 0 <= i < |pieces| :: End(pieces[i]) <= size)
    && (forall i, j | 0 <= i < j < |pieces| :: End(pieces[i]) <= pieces[j].at || End(pieces[j]) <= pieces[i].at)
  }

  /** A file of zeros, with each piece written over it. */
  function File(pieces: seq<Piece>, size: nat): (r: Bytes)
    requires forall i | 0 <= i < |pieces| :: End(pieces[i]) <= size
    ensures |r| == size
  {
    if pieces == [] then Zeros(size)
    else
      var p := pieces[|pieces| - 1];
      assert End(p) <= size;
      var before := File(pieces[..|pieces| - 1], size);
      before[..p.at] + p.bytes + before[End(p)..]
  }

  /** Pieces that do not overlap all stand in the file. */
  lemma {:induction false} PieceStands(pieces: seq<Piece>, size: nat, i: nat)
    requires Disjoint(pieces, size) && i < |pieces|
    ensures Part(File(pieces, size), pieces[i].at, pieces[i].bytes)
    decreases |pieces|
  {
    var k := |pieces| - 1;
    var p, before, file := pieces[k], File(pieces[..k], size), File(pieces, size);
    if i == k {
      assert file[p.at..End(p)] == p.bytes;
    } else {
      PieceStands(pieces[..k], size, i);
      var q := pieces[i];
      assert file[q.at..End(q)] == before[q.at..End(q)];
    }
  }

  lemma {:induction false} FileBytes(pieces: seq<Piece>, size: nat)
    requires Disjoint(pieces, size) && forall i | 0 <= i < |pieces| :: IsBytes(pieces[i].bytes)
    ensures IsBytes(File(pieces, size))
  {
    if pieces != [] {
      FileBytes(pieces[..|pieces| - 1], size);
    }
  }

  lemma PiecesBytes(l: Layout)
    requires Shaped(l)
    ensures forall i | 0 <= i < |Pieces(l)| :: IsBytes(Pieces(l)[i].bytes)
  {
    hide IsBytes, SectionAt, Field;
  }

  /** The file of a layout, whatever the order of its pieces, lays it out. */
  lemma FileLaidOut(l: Layout, size: nat)
    requires Shaped(l) && size < TWO_63 && Disjoint(Pieces(l), size)
    ensures LaidOut(File(Pieces(l), size), l)
  {
    hide File, Part, SectionAt, HeaderSays, Field;
    var n, pieces := |l.headers|, Pieces(l);
    PiecesBytes(l);
    FileBytes(pieces, size);
    PieceStands(pieces, size, 0);
    forall k | 0 <= k < n
      ensures Part(File(pieces, size), l.table + k * SECTION_SIZE, l.headers[k])
      ensures Part(File(pieces, size), SectionOf(l, k).offset, l.contents[k])
    {
      PieceStands(pieces, size, 1 + k);
      PieceStands(pieces, size, 1 + n + k);
    }
  }

  /** Sections in any order, at any offsets that do not overlap, with any contents:
      the file they make passes exactly when it defines each export. */
  lemma FileAccepted(l: Layout, size: nat, s: nat, exports: seq<Bytes>, utf8: Bytes -> bool)
    requires Shaped(l) && size < TWO_63 && Disjoint(Pieces(l), size) && Complete(l, s, utf8)
    ensures Slice(File(Pieces(l), size)) && !Wraps(File(Pieces(l), size), utf8)
    ensures Accepts(File(Pieces(l), size), exports, utf8) <==>
              forall e | e in exports :: Exports(l.contents[s], l.contents[SectionOf(l, s).link], e, utf8)
  {
    hide File, Complete, Wraps, Accepts, Exports, SectionAt;
    FileLaidOut(l, size);
    LayoutAccepted(File(Pieces(l), size), l, s, exports, utf8);
  }
}
