/** The arena runtime of a compiled module, updated in place, and what holds over
    every sequence of requests to it. */
module Arena {
  import opened Words
  import opened Represent
  import C = CLang

  // ---------- The runtime ----------

  lemma WriteNext(before: seq<int>, at: nat, image: seq<int>, i: nat)
    requires i < |image| && at + |image| <= |before|
    ensures C.WriteBytes(before, at, image[..i + 1]) == C.WriteBytes(before, at, image[..i])[at + i := image[i]]
  {
  }

  /** `mncs_arena`, `mncs_bump`, `mncs_failed` and `mncs_exhausted`. */
  class Runtime {
    var bytes: array<int>
    var bump: int
    var failed: bool
    var exhausted: bool

    ghost predicate Valid()
      reads this, bytes
    {
      View().Ok()
    }

    /** The runtime's state as a value; the out-parameters are not part of it. */
    ghost function View(): C.Memory
      reads this, bytes
    {
      C.Memory(bytes[..], bump, failed, exhausted, 0, 0)
    }

    constructor ()
      ensures Valid() && fresh(bytes)
      ensures bump == 0 && !failed && !exhausted
      ensures forall i | 0 <= i < bytes.Length :: bytes[i] == 0
    {
      bytes := new int[C.ARENA_BYTES](_ => 0);
      bump, failed, exhausted := 0, false, false;
    }

    method CellAlloc(size: int) returns (base: int)
      requires Valid() && 0 <= size < TWO_64
      modifies this`bump, this`failed, this`exhausted
      ensures Valid()
      ensures (View(), base) == C.CellAlloc(old(View()), size)
    {
      if failed {
        return 0;
      }
      if size > C.ARENA_BYTES || bump > C.ARENA_BYTES {
        failed, exhausted := true, true;
        return 0;
      }
      base := Bitwise(BitAnd, (bump + 7) % TWO_64, TWO_64 - 8, 64);
      if base > C.ARENA_BYTES - size {
        failed, exhausted := true, true;
        return 0;
      }
      bump := base + size;
    }

    method SlotStore(w: C.Width, at: nat, v: nat)
      requires Valid()
      modifies this`failed, bytes
      ensures Valid() && bytes == old(bytes)
      ensures View() == C.SlotStore(old(View()), w, at, v)
    {
      StoreOk(View(), w, at, v);
      if failed {
        return;
      }
      var n := C.SlotBytes(w);
      if at > C.ARENA_BYTES - n {
        failed := true;
        return;
      }
      var image := ToBytes(v, n);
      ghost var before := bytes[..];
      assert C.WriteBytes(before, at, image[..0]) == before;
      for i := 0 to n
        invariant !failed && bytes[..] == C.WriteBytes(before, at, image[..i])
      {
        WriteNext(before, at, image, i);
        bytes[at + i] := image[i];
      }
      assert image[..n] == image;
    }

    method SlotLoad(w: C.Width, at: nat) returns (v: nat)
      requires Valid()
      modifies this`failed
      ensures Valid()
      ensures (View(), v) == C.SlotLoad(old(View()), w, at)
    {
      if failed {
        return 0;
      }
      var n := C.SlotBytes(w);
      if at > C.ARENA_BYTES - n {
        failed := true;
        return 0;
      }
      var image := bytes[at..at + n];
      v := FromBytes(image);
    }
  }

  // ---------- Any sequence of requests ----------

  datatype Request = Alloc(size: nat) | Store(w: C.Width, at: nat, v: nat) | Load(w: C.Width, at: nat)

  datatype Cell = Cell(base: int, size: nat)

  function Serve(m: C.Memory, r: Request): C.Memory {
    match r
    case Alloc(size) => C.CellAlloc(m, size).0
    case Store(w, at, v) => C.SlotStore(m, w, at, v)
    case Load(w, at) => C.SlotLoad(m, w, at).0
  }

  /** The cells handed out so far: the allocations that did not fail. */
  function Handed(m: C.Memory, r: Request): seq<Cell> {
    if r.Alloc? && !C.CellAlloc(m, r.size).0.failed then [Cell(C.CellAlloc(m, r.size).1, r.size)] else []
  }

  function ServeAll(m: C.Memory, rs: seq<Request>): C.Memory
    decreases |rs|
  {
    if rs == [] then m else ServeAll(Serve(m, rs[0]), rs[1..])
  }

  function Cells(m: C.Memory, rs: seq<Request>): seq<Cell>
    decreases |rs|
  {
    if rs == [] then [] else Handed(m, rs[0]) + Cells(Serve(m, rs[0]), rs[1..])
  }

  /** Aligned, inside the arena, and above everything allocated before. */
  predicate Placed(c: Cell, floor: int) {
    c.base % 8 == 0 && floor <= c.base && c.base + c.size <= C.ARENA_BYTES
  }

  predicate Disjoint(cells: seq<Cell>) {
    forall i, j | 0 <= i < j < |cells| :: cells[i].base + cells[i].size <= cells[j].base
  }

  /** One request keeps the arena sound, never lowers the bump, and a set flag
      freezes everything. */
  lemma ServeSound(m: C.Memory, r: Request)
    requires m.Ok()
    ensures var m' := Serve(m, r);
            && m'.Ok() && m.bump <= m'.bump
            && (m.failed ==> m' == m)
            && (m'.bump != m.bump ==> m'.bump <= C.ARENA_BYTES)
    ensures forall c | c in Handed(m, r) :: Placed(c, m.bump) && c.base + c.size == Serve(m, r).bump
  {
    match r
    case Alloc(size) =>
      if !m.failed {
        hide Bitwise;
        if m.bump <= C.ARENA_BYTES {
          AlignMask(m.bump);
          AllocSpec(m, size);
        }
      }
    case Store(w, at, v) => StoreOk(m, w, at, v);
    case Load(_, _) =>
  }

  lemma {:induction false} ServeAllSound(m: C.Memory, rs: seq<Request>)
    requires m.Ok()
    ensures ServeAll(m, rs).Ok() && m.bump <= ServeAll(m, rs).bump
    decreases |rs|
  {
    if rs != [] {
      ServeSound(m, rs[0]);
      ServeAllSound(Serve(m, rs[0]), rs[1..]);
    }
  }

  /** Over any sequence of requests, the cells handed out are aligned, in range and
      pairwise disjoint, each above everything allocated before it. */
  lemma {:induction false} CellsDisjoint(m: C.Memory, rs: seq<Request>)
    requires m.Ok()
    ensures Disjoint(Cells(m, rs))
    ensures forall c | c in Cells(m, rs) :: Placed(c, m.bump) && c.base + c.size <= ServeAll(m, rs).bump
    decreases |rs|
  {
    if rs != [] {
      hide C.CellAlloc, C.SlotStore, C.SlotLoad, Serve, Handed;
      ServeSound(m, rs[0]);
      var m' := Serve(m, rs[0]);
      CellsDisjoint(m', rs[1..]);
      ServeAllSound(m', rs[1..]);
      HandedOne(m, rs[0]);
      var first, rest := Handed(m, rs[0]), Cells(m', rs[1..]);
      var all: seq<Cell> := first + rest;
      forall i, j | 0 <= i < j < |all|
        ensures all[i].base + all[i].size <= all[j].base
      {
        if i < |first| {
          assert all[j] == rest[j - |first|] && rest[j - |first|] in rest && all[i] in first;
        } else {
          assert all[i] == rest[i - |first|] && all[j] == rest[j - |first|];
        }
      }
    }
  }

  lemma HandedOne(m: C.Memory, r: Request)
    ensures |Handed(m, r)| <= 1
  {
    hide C.CellAlloc;
  }

  /** Failure is permanent: nothing is handed out or written after it. */
  lemma {:induction false} FailureIsPermanent(m: C.Memory, rs: seq<Request>)
    requires m.Ok() && m.failed
    ensures ServeAll(m, rs) == m && Cells(m, rs) == []
    decreases |rs|
  {
    if rs != [] {
      ServeSound(m, rs[0]);
      FailureIsPermanent(m, rs[1..]);
    }
  }

  /** A cell's bytes change only through stores that overlap it. */
  predicate Misses(r: Request, lo: int, hi: int) {
    r.Store? ==> r.at + C.SlotBytes(r.w) <= lo || hi <= r.at
  }

  lemma {:induction false} UnrelatedRequestsKeep(m: C.Memory, rs: seq<Request>, lo: nat, hi: nat)
    requires m.Ok() && lo <= hi <= C.ARENA_BYTES && forall r | r in rs :: Misses(r, lo, hi)
    ensures ServeAll(m, rs).Ok() && ServeAll(m, rs).arena[lo..hi] == m.arena[lo..hi]
    decreases |rs|
  {
    if rs != [] {
      ServeSound(m, rs[0]);
      KeepsSlice(m, rs[0], lo, hi);
      UnrelatedRequestsKeep(Serve(m, rs[0]), rs[1..], lo, hi);
    }
  }

  lemma KeepsSlice(m: C.Memory, r: Request, lo: nat, hi: nat)
    requires m.Ok() && lo <= hi <= C.ARENA_BYTES && Misses(r, lo, hi) && Serve(m, r).Ok()
    ensures Serve(m, r).arena[lo..hi] == m.arena[lo..hi]
  {
    hide Bitwise, ToBytes, FromBytes;
  }

  // ---------- Nothing is lost ----------

  /** When a healthy arena fails: an allocation or an access past 16 MiB, and only an
      allocation says that the arena is exhausted. */
  lemma ServeFails(m: C.Memory, r: Request)
    requires Represent.Valid(m) && !m.failed && !m.exhausted
    ensures Serve(m, r).failed <==>
              (match r
               case Alloc(size) => AlignUp(m.bump) + size > 16777216
               case Store(w, at, _) => at + C.SlotBytes(w) > 16777216
               case Load(w, at) => at + C.SlotBytes(w) > 16777216)
    ensures Serve(m, r).exhausted <==> r.Alloc? && Serve(m, r).failed
  {
    hide Bitwise, ToBytes, FromBytes;
    if r.Alloc? {
      AllocSpec(m, r.size);
    }
  }

  function Sizes(rs: seq<Request>): seq<nat>
    decreases |rs|
  {
    if rs == [] then [] else (if rs[0].Alloc? then [rs[0].size] else []) + Sizes(rs[1..])
  }

  /** A run of requests that never fails hands out a cell for every allocation, in
      order and of the size asked for. */
  lemma {:induction false} CellsComplete(m: C.Memory, rs: seq<Request>)
    requires m.Ok() && !ServeAll(m, rs).failed
    ensures |Cells(m, rs)| == |Sizes(rs)| && forall i | 0 <= i < |Sizes(rs)| :: Cells(m, rs)[i].size == Sizes(rs)[i]
    decreases |rs|
  {
    if rs != [] {
      hide C.CellAlloc, C.SlotStore, C.SlotLoad, C.Memory.Ok;
      ServeSound(m, rs[0]);
      CellsComplete(Serve(m, rs[0]), rs[1..]);
      if Serve(m, rs[0]).failed {
        FailureIsPermanent(Serve(m, rs[0]), rs[1..]);
      }
    }
  }

  /** A stored value is loaded back after any requests that keep off its slot. */
  lemma StoredReads(m: C.Memory, w: C.Width, at: nat, v: nat, rs: seq<Request>)
    requires m.Ok() && v < Pow2(8 * C.SlotBytes(w)) && forall r | r in rs :: Misses(r, at, at + C.SlotBytes(w))
    ensures var end := ServeAll(m, [Store(w, at, v)] + rs);
            !end.failed ==> C.SlotLoad(end, w, at) == (end, v)
  {
    var all, n := [Store(w, at, v)] + rs, C.SlotBytes(w);
    assert all[1..] == rs;
    ServeSound(m, all[0]);
    var m' := Serve(m, all[0]);
    var end := ServeAll(m, all);
    assert end == ServeAll(m', rs);
    if !end.failed {
      if m'.failed {
        FailureIsPermanent(m', rs);
      }
      StoreThenRead(m, w, at, v);
      UnrelatedRequestsKeep(m', rs, at, at + n);
      hide ToBytes, FromBytes, Pow2, Serve;
      assert m'.arena[at..at + n] == end.arena[at..at + n];
    }
  }
}
