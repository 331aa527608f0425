/** How an MNCS value is laid out: in a C cell and, for sequences and views, in
    the arena slots behind it. */
module Represent {
  import opened Words
  import opened Mncs
  import opened Emit
  import opened IntegerLowering
  import C = CLang

  // ---------- Slots ----------

  function WidthFor(ty: Ty): C.Width { CWidth(SlotWidthOf(ty)) }

  /** The cell read from the slot at `at`. */
  function SlotCell(m: C.Memory, ty: Ty, at: nat): int {
    C.ToType(CTypeOf(ty), C.SlotAt(m, WidthFor(ty), at))
  }

  /** A cell's pattern as stored in a slot, and read back. */
  lemma SlotRoundTrip(ty: Ty, c: int)
    requires C.Fits(CTypeOf(ty), c)
    ensures var raw := C.ToType(C.SlotType(WidthFor(ty)), c);
            && 0 <= raw < Pow2(8 * C.SlotBytes(WidthFor(ty)))
            && C.ToType(CTypeOf(ty), raw) == c
  {
    Pow2Values();
    var m, t := C.ModulusOf(CTypeOf(ty)), C.SlotType(WidthFor(ty));
    WrapResidue(c, C.ModulusOf(t), false);
    WrapCongruent(C.ToType(t, c), c, m, C.Signed(CTypeOf(ty)));
    C.ToTypeFixes(CTypeOf(ty), c);
  }

  /** Cells and their slots have 64 bits for 64-bit integers, sequences and views and 32
      bits otherwise; cells of integers and truth values are signed. */
  lemma CellShape(ty: Ty)
    ensures C.WidthOf(CTypeOf(ty)) == 8 * C.SlotBytes(WidthFor(ty)) == if ty.TBool? || (ty.TInt? && BitCount(ty.bits) < 64) then 32 else 64
    ensures C.Signed(CTypeOf(ty)) <==> ty.TInt? || ty.TBool?
  {
  }

  // ---------- Memory ----------

  predicate Valid(m: C.Memory) { m.Ok() && m.bump <= C.ARENA_BYTES }

  /** `after` keeps every allocated byte of `before` and allocates no less. */
  predicate Extends(before: C.Memory, after: C.Memory) {
    && Valid(before) && Valid(after)
    && before.bump <= after.bump
    && after.arena[..before.bump] == before.arena[..before.bump]
  }

  lemma ExtendsTransitive(a: C.Memory, b: C.Memory, c: C.Memory)
    requires Extends(a, b) && Extends(b, c)
    ensures Extends(a, c)
  {
    assert c.arena[..a.bump] == c.arena[..b.bump][..a.bump];
    assert b.arena[..a.bump] == b.arena[..b.bump][..a.bump];
  }

  lemma SliceOfPrefix(s: seq<int>, mark: nat, lo: nat, hi: nat)
    requires lo <= hi <= mark <= |s|
    ensures s[lo..hi] == s[..mark][lo..hi]
  {
  }

  /** Slots below the bump keep their contents. */
  lemma SlotKept(a: C.Memory, b: C.Memory, w: C.Width, at: nat)
    requires Extends(a, b) && at + C.SlotBytes(w) <= a.bump
    ensures C.SlotAt(b, w, at) == C.SlotAt(a, w, at)
  {
    SliceOfPrefix(a.arena, a.bump, at, at + C.SlotBytes(w));
    SliceOfPrefix(b.arena, a.bump, at, at + C.SlotBytes(w));
  }

  // ---------- Stores and loads ----------

  predicate InArena(w: C.Width, at: int) { 0 <= at && at + C.SlotBytes(w) <= C.ARENA_BYTES }

  lemma StoreOk(m: C.Memory, w: C.Width, at: nat, v: nat)
    requires m.Ok()
    ensures C.SlotStore(m, w, at, v).Ok()
    ensures C.SlotStore(m, w, at, v).bump == m.bump
    ensures InArena(w, at) && !m.failed ==> !C.SlotStore(m, w, at, v).failed
  {
    var n := C.SlotBytes(w);
    if !m.failed && at + n <= C.ARENA_BYTES {
      var bytes := C.WriteBytes(m.arena, at, ToBytes(v, n));
      forall i | 0 <= i < C.ARENA_BYTES
        ensures 0 <= bytes[i] < 256
      {
        if at <= i < at + n {
          assert bytes[i] == ToBytes(v, n)[i - at];
        } else if i < at {
          assert bytes[i] == m.arena[i];
        } else {
          assert bytes[i] == m.arena[i];
        }
      }
    }
  }

  /** A stored slot reads back what was stored. */
  lemma StoreThenRead(m: C.Memory, w: C.Width, at: nat, v: nat)
    requires m.Ok() && !m.failed && InArena(w, at) && v < Pow2(8 * C.SlotBytes(w))
    ensures C.SlotAt(C.SlotStore(m, w, at, v), w, at) == v
  {
    StoreOk(m, w, at, v);
    var n := C.SlotBytes(w);
    var bytes := C.WriteBytes(m.arena, at, ToBytes(v, n));
    assert bytes[at..at + n] == ToBytes(v, n);
    BytesRoundTrip(v, n);
  }

  /** A slot that does not overlap the stored one is untouched. */
  lemma StoreElsewhere(m: C.Memory, w: C.Width, at: nat, v: nat, x: C.Width, other: nat)
    requires m.Ok() && !m.failed && InArena(w, at) && InArena(x, other)
    requires other + C.SlotBytes(x) <= at || at + C.SlotBytes(w) <= other
    ensures C.SlotAt(C.SlotStore(m, w, at, v), x, other) == C.SlotAt(m, x, other)
  {
    StoreOk(m, w, at, v);
    var n, k := C.SlotBytes(w), C.SlotBytes(x);
    var bytes := C.WriteBytes(m.arena, at, ToBytes(v, n));
    assert bytes[other..other + k] == m.arena[other..other + k];
  }

  /** A store at or above `mark` keeps everything below it. */
  lemma StoreKeepsBelow(m: C.Memory, w: C.Width, at: nat, v: nat, mark: nat)
    requires m.Ok() && mark <= at && mark <= C.ARENA_BYTES
    ensures C.SlotStore(m, w, at, v).Ok() && C.SlotStore(m, w, at, v).arena[..mark] == m.arena[..mark]
  {
    StoreOk(m, w, at, v);
  }

  // ---------- Representation ----------

  /** Cell `c` stands for value `v` of type `ty`. */
  ghost predicate Rep(v: Value, ty: Ty, c: int, m: C.Memory)
    decreases v, 1
  {
    match ty
    case TInt(b, s) => v.IntV? && InRange(v.n, b, s) && c == CellOf(v.n, b)
    case TBool => v.BoolV? && c == if v.b then 1 else 0
    case TSeq(e, n) => v.SeqV? && |v.elems| == n && Slots(v.elems, e, c, m)
    case TView(e, cap) =>
      && v.SeqV?
      && 0 <= c < TWO_64
      && c / TWO_32 == |v.elems| <= cap
      && Slots(v.elems, e, c % TWO_32, m)
  }

  /** Consecutive 8-byte slots from `base` hold the elements. */
  ghost predicate Slots(es: seq<Value>, e: Ty, base: int, m: C.Memory)
    decreases es, 0
  {
    && 0 <= base
    && base + 8 * |es| <= m.bump
    && forall i | 0 <= i < |es| :: Rep(es[i], e, SlotCell(m, e, base + 8 * i), m)
  }

  /** A representation survives everything that only extends the arena. */
  lemma {:induction false} RepKept(v: Value, ty: Ty, c: int, a: C.Memory, b: C.Memory)
    requires Rep(v, ty, c, a) && Extends(a, b)
    ensures Rep(v, ty, c, b)
    decreases v, 1
  {
    match ty
    case TInt(_, _) =>
    case TBool =>
    case TSeq(e, _) => SlotsKept(v.elems, e, c, a, b);
    case TView(e, _) => SlotsKept(v.elems, e, c % TWO_32, a, b);
  }

  lemma {:induction false} SlotsKept(es: seq<Value>, e: Ty, base: int, a: C.Memory, b: C.Memory)
    requires Slots(es, e, base, a) && Extends(a, b)
    ensures Slots(es, e, base, b)
    decreases es, 0
  {
    forall i | 0 <= i < |es|
      ensures Rep(es[i], e, SlotCell(b, e, base + 8 * i), b)
    {
      SlotKept(a, b, WidthFor(e), base + 8 * i);
      RepKept(es[i], e, SlotCell(a, e, base + 8 * i), a, b);
    }
  }

  /** A cell stands for one value of its type at most. */
  lemma {:induction false} RepDetermines(v: Value, u: Value, ty: Ty, c: int, m: C.Memory)
    requires Rep(v, ty, c, m) && Rep(u, ty, c, m)
    ensures v == u
    decreases v, 1
  {
    match ty
    case TInt(b, s) => SameCellResult(v.n, u.n, b, s);
    case TBool =>
    case TSeq(e, _) => SlotsDetermine(v.elems, u.elems, e, c, m);
    case TView(e, _) => SlotsDetermine(v.elems, u.elems, e, c % TWO_32, m);
  }

  lemma {:induction false} SlotsDetermine(es: seq<Value>, fs: seq<Value>, e: Ty, base: int, m: C.Memory)
    requires Slots(es, e, base, m) && Slots(fs, e, base, m) && |es| == |fs|
    ensures es == fs
    decreases es, 0
  {
    forall i | 0 <= i < |es|
      ensures es[i] == fs[i]
    {
      RepDetermines(es[i], fs[i], e, SlotCell(m, e, base + 8 * i), m);
    }
  }

  /** A represented value fits its cell's C type. */
  lemma RepFits(v: Value, ty: Ty, c: int, m: C.Memory)
    requires Rep(v, ty, c, m) && Valid(m)
    ensures C.Fits(CTypeOf(ty), c)
  {
  }

  /** A sub-range of represented slots is represented. */
  lemma SlotsSlice(es: seq<Value>, e: Ty, base: int, m: C.Memory, lo: nat, hi: nat)
    requires Slots(es, e, base, m) && lo <= hi <= |es|
    ensures Slots(es[lo..hi], e, base + 8 * lo, m)
  {
    var part := es[lo..hi];
    forall i | 0 <= i < |part|
      ensures Rep(part[i], e, SlotCell(m, e, base + 8 * lo + 8 * i), m)
    {
      assert part[i] == es[lo + i];
      assert base + 8 * lo + 8 * i == base + 8 * (lo + i);
    }
  }

  // ---------- Allocation ----------

  /** The next 8-aligned address. */
  function AlignUp(n: int): int { (n + 7) / 8 * 8 }

  /** What is left of the arena cannot hold so many bytes. */
  predicate Overruns(m: C.Memory, bytes: nat) { AlignUp(m.bump) + bytes > C.ARENA_BYTES }

  /** `after` has allocated so many bytes more, padding apart. */
  predicate Took(before: C.Memory, after: C.Memory, bytes: nat) { AlignUp(after.bump) == AlignUp(before.bump) + bytes }

  /** Cells of whole slots leave no padding behind them. */
  lemma AlignSlots(bump: int, n: int)
    ensures AlignUp(AlignUp(bump) + 8 * n) == AlignUp(bump) + 8 * n
  {
  }

  /** A valid arena never runs out over nothing. */
  lemma NothingFits(m: C.Memory)
    requires Valid(m)
    ensures !Overruns(m, 0)
  {
  }

  lemma AlignMask(n: nat)
    requires n <= C.ARENA_BYTES
    ensures Bitwise(BitAnd, (n + 7) % TWO_64, TWO_64 - 8, 64) == AlignUp(n)
    ensures n <= AlignUp(n) <= n + 7 && AlignUp(n) % 8 == 0
  {
    Pow2Values();
    AndClear(n + 7, 64, 3, TWO_64 - 8);
    ModUnique(n + 7, TWO_64, 0, n + 7);
  }

  /** `mncs_cell_alloc` on a healthy arena: a fresh aligned cell, or exhaustion. */
  lemma AllocSpec(m: C.Memory, bytes: nat)
    requires Valid(m) && !m.failed
    ensures var (m', base) := C.CellAlloc(m, bytes);
            && (!Overruns(m, bytes) ==> base == AlignUp(m.bump) && m' == m.(bump := base + bytes) && Extends(m, m'))
            && (Overruns(m, bytes) ==> base == 0 && m' == m.Exhaust())
  {
    AlignMask(m.bump);
  }
}
