/** The buffer allocator of one binder process. */
module BufferSpace {
  import opened Wrappers
  import opened BufferLayout
  import opened BufferRow
  import opened SearchTree
  import opened BufferIndex
  import opened TreeOrder

  /** Ways in which giving a page to the region can fail. */
  datatype Fault = NoPage | KernelMapping | UserMapping

  /** A page is mapped exactly when some header, or the data of an allocated buffer, is on it. */
  predicate PagesMatch(g: Geometry, row: seq<Buffer>, size: nat, pages: seq<bool>)
    requires g.page > 0
  {
    forall k :: 0 <= k < |pages| ==> pages[k] == Needs(g, row, size, k)
  }

  lemma FreeAt(g: Geometry, row: seq<Buffer>, size: nat, a: nat)
    requires g.Valid() && Tiled(g, row, size)
    ensures FreeAddrs(row) <= Addrs(row) && UsedAddrs(row) <= Addrs(row)
    ensures a in FreeAddrs(row) ==> row[IndexOf(row, a)].Free?
    ensures a in UsedAddrs(row) ==> row[IndexOf(row, a)].Used?
  {
    if a in Addrs(row) {
      NotBoth(g, row, size, IndexOf(row, a));
    }
  }

  /** Some free buffer has room for `need` bytes. */
  predicate SomeFits(g: Geometry, row: seq<Buffer>, size: nat, need: nat) {
    exists a :: a in FreeAddrs(row) && a in Rooms(g, row, size) && Rooms(g, row, size)[a] >= need
  }

  /** The pages an allocation maps exist. */
  lemma MapEndBounded(g: Geometry, row: seq<Buffer>, size: nat, i: nat, need: nat)
    requires g.Valid() && Tiled(g, row, size) && i < |row| && Placed(g, row, size, i)
    ensures MapEnd(g, row, size, i, need) <= Page(g, size)
  {
    EndBounded(g, row, size, i);
    PageMono(g, End(row, size, i), size);
  }

  lemma MatchAfterAlloc(g: Geometry, row: seq<Buffer>, size: nat, i: nat, need: nat, b: Buffer, was: seq<bool>, now: seq<bool>)
    requires g.Valid() && Tiled(g, row, size) && size % g.page == 0
    requires i < |row| && row[i].Free? && b.Used? && b.addr == row[i].addr && Placed(g, row, size, i)
    requires need % 8 == 0 && need <= Room(g, row, size, i)
    requires PagesMatch(g, row, size, was) && |now| == |was|
    requires forall k :: 0 <= k < |was| ==> now[k] == if Mapped(g, row, size, i, need, k) then true else was[k]
    ensures PagesMatch(g, Allocated(g, row, size, i, need, b), size, now)
  {
    forall k | 0 <= k < |now| ensures now[k] == Needs(g, Allocated(g, row, size, i, need, b), size, k) {
      AllocatedPages(g, row, size, i, need, b, k);
    }
  }

  /** No free buffer with room for `need` bytes is smaller than `i`. */
  predicate BestFor(g: Geometry, row: seq<Buffer>, size: nat, need: nat, i: nat)
    requires i < |row|
  {
    forall j {:trigger Placed(g, row, size, j)} ::
      0 <= j < |row| && row[j].Free? && Placed(g, row, size, j) && Room(g, row, size, j) >= need ==>
        Room(g, row, size, i) <= Room(g, row, size, j)
  }

  /** A best fit among the addresses is a best fit among the buffers. */
  lemma BestAmongAll(g: Geometry, row: seq<Buffer>, size: nat, need: nat, i: nat)
    requires g.Valid() && Tiled(g, row, size) && i < |row| && Placed(g, row, size, i)
    requires forall a :: a in FreeAddrs(row) && a in Rooms(g, row, size) && need <= Rooms(g, row, size)[a] ==>
               Room(g, row, size, i) <= Rooms(g, row, size)[a]
    ensures BestFor(g, row, size, need, i)
  {
    forall j | 0 <= j < |row| && row[j].Free? && Placed(g, row, size, j) && Room(g, row, size, j) >= need
      ensures Room(g, row, size, i) <= Room(g, row, size, j)
    {
      RoomsAt(g, row, size, j);
      InRow(row, j);
    }
  }

  lemma WrappedCost(need: nat, header: nat)
    requires need < WORDS && header < WORDS
    ensures (need + header) % WORDS == if need + header < WORDS then need + header else need + header - WORDS
  {
  }

  /** Where a buffer fits, the sum that is compared with the budget does not wrap around. */
  lemma BudgetOfFit(g: Geometry, row: seq<Buffer>, size: nat, need: nat)
    requires g.Valid() && Tiled(g, row, size) && size + g.header < WORDS
    ensures SomeFits(g, row, size, need) ==> need + g.header < WORDS
  {
    if SomeFits(g, row, size, need) {
      var a :| a in FreeAddrs(row) && a in Rooms(g, row, size) && Rooms(g, row, size)[a] >= need;
      FreeAt(g, row, size, a);
      var i := IndexOf(row, a);
      RoomsAt(g, row, size, i);
      EndBounded(g, row, size, i);
    }
  }

  /** The pages that taking `need` bytes of buffer `i` maps are all to be had. */
  predicate Mappable(g: Geometry, row: seq<Buffer>, size: nat, i: nat, need: nat, usable: bool, faults: map<nat, Fault>)
    requires g.Valid() && i < |row|
  {
    var lo, hi := PageUp(g, row[i].addr + g.header), MapEnd(g, row, size, i, need);
    hi <= lo || (usable && forall k :: lo <= k < hi ==> k !in faults)
  }

  lemma MapRangeUnmapped(g: Geometry, row: seq<Buffer>, size: nat, i: nat, need: nat, pages: seq<bool>)
    requires g.Valid() && Tiled(g, row, size) && i < |row| && row[i].Free? && Placed(g, row, size, i)
    requires PagesMatch(g, row, size, pages)
    ensures forall k :: 0 <= k < |pages| && Mapped(g, row, size, i, need, k) ==> !pages[k]
  {
    forall k | 0 <= k < |pages| && Mapped(g, row, size, i, need, k) ensures !pages[k] {
      MappedUnneeded(g, row, size, i, need, k);
    }
  }

  /** Once buffer `i` is free, the pages inside it are the ones to take away. */
  lemma MatchAfterRelease(g: Geometry, row: seq<Buffer>, size: nat, i: nat, was: seq<bool>, now: seq<bool>)
    requires g.Valid() && Tiled(g, row, size) && size % g.page == 0 && i < |row| && row[i].Used?
    requires PagesMatch(g, row, size, was) && |now| == |was|
    requires forall k :: 0 <= k < |was| ==> now[k] == if Inside(g, row, size, i, k) then false else was[k]
    ensures PagesMatch(g, row[i := Free(row[i].addr)], size, now)
  {
    var row' := row[i := Free(row[i].addr)];
    RelabelTiled(g, row, size, i, Free(row[i].addr));
    assert row'[i := row[i]] == row;
    forall k | 0 <= k < |now| ensures now[k] == Needs(g, row', size, k) {
      WholeBufferPages(g, row', size, i, row[i], k);
      if Inside(g, row', size, i, k) {
        InsideFree(g, row', size, i, k);
      }
    }
  }

  /** The pages inside an allocated buffer are mapped, and are given by the range the driver computes. */
  lemma ReleaseRange(g: Geometry, row: seq<Buffer>, size: nat, i: nat, pages: seq<bool>)
    requires g.Valid() && Tiled(g, row, size) && i < |row| && row[i].Used?
    requires PagesMatch(g, row, size, pages) && |pages| == Page(g, size)
    ensures Page(g, End(row, size, i)) <= |pages|
    ensures forall k: nat :: Inside(g, row, size, i, k) <==> PageUp(g, row[i].addr + g.header) <= k < Page(g, End(row, size, i))
    ensures forall k :: 0 <= k < |pages| && Inside(g, row, size, i, k) ==> pages[k]
  {
    EndBounded(g, row, size, i);
    PageMono(g, End(row, size, i), size);
    PageUpIsNext(g, row[i].addr + g.header);
    forall k | 0 <= k < |pages| && Inside(g, row, size, i, k) ensures pages[k] {
      InsideTouched(g, row, size, i, k);
      assert Touches(g, row, size, i, k);
    }
  }

  /** The pages of header `j` that no neighbouring header shares. */
  predicate OwnHeaderPage(g: Geometry, row: seq<Buffer>, j: nat, k: nat)
    requires g.Valid() && 0 < j < |row|
  {
    && HeaderOn(g, row[j].addr, k)
    && k != Page(g, row[j - 1].addr + g.header - 1)
    && (j + 1 < |row| ==> k != Page(g, row[j + 1].addr))
  }

  lemma MatchAfterMerge(g: Geometry, row: seq<Buffer>, size: nat, j: nat, was: seq<bool>, now: seq<bool>)
    requires g.Valid() && Tiled(g, row, size) && 0 < j < |row| && row[j].Free? && row[j - 1].Free?
    requires PagesMatch(g, row, size, was) && |now| == |was|
    requires forall k :: 0 <= k < |was| ==> now[k] == if OwnHeaderPage(g, row, j, k) then false else was[k]
    ensures PagesMatch(g, Drop(row, j), size, now)
  {
    forall k | 0 <= k < |now| ensures now[k] == Needs(g, Drop(row, j), size, k) {
      DropPages(g, row, size, j, k);
      if HeaderOn(g, row[j].addr, k) {
        SharedPages(g, row, size, j, k);
      }
    }
  }

  lemma OwnHeaderMapped(g: Geometry, row: seq<Buffer>, size: nat, j: nat, pages: seq<bool>)
    requires g.Valid() && Tiled(g, row, size) && 0 < j < |row| && row[j].Free?
    requires PagesMatch(g, row, size, pages) && |pages| == Page(g, size) && size % g.page == 0
    ensures Page(g, row[j].addr) <= Page(g, row[j].addr + g.header - 1) < |pages|
    ensures Page(g, row[j].addr + g.header - 1) <= Page(g, row[j].addr) + 1
    ensures Page(g, row[j - 1].addr + g.header - 1) <= Page(g, row[j].addr)
    ensures j + 1 < |row| ==> Page(g, row[j].addr + g.header - 1) <= Page(g, row[j + 1].addr)
    ensures forall k :: 0 <= k < |pages| && HeaderOn(g, row[j].addr, k) ==> pages[k]
  {
    EndBounded(g, row, size, j);
    PageNear(g, row[j].addr, row[j].addr + g.header - 1);
    PageBelow(g, row[j].addr + g.header - 1, size);
    assert Placed(g, row, size, j - 1) && Placed(g, row, size, j);
    PageMono(g, row[j - 1].addr + g.header - 1, row[j].addr);
    if j + 1 < |row| {
      PageMono(g, row[j].addr + g.header - 1, row[j + 1].addr);
    }
    forall k | 0 <= k < |pages| && HeaderOn(g, row[j].addr, k) ensures pages[k] {
      assert Touches(g, row, size, j, k);
    }
  }

  /** What a buffer was allocated for is recomputed exactly, and fits its room. */
  lemma RefundExact(g: Geometry, row: seq<Buffer>, size: nat, i: nat)
    requires g.Valid() && RowOk(g, row, size) && i < |row| && row[i].Used? && size < WORDS
    ensures Placed(g, row, size, i) && StoredSize(row[i]) <= Room(g, row, size, i)
    ensures row[i].async ==> StoredSize(row[i]) + g.header == Charge(g, row[i])
  {
    assert Roomy(g, row, size, i) && Placed(g, row, size, i);
    EndBounded(g, row, size, i);
    StoredSizeExact(row[i]);
  }

  lemma WholePage(g: Geometry, size: nat)
    requires g.Valid() && size > 0 && size % g.page == 0
    ensures size >= g.page && Page(g, size) >= 1
  {
    assert size == Page(g, size) * g.page;
    if Page(g, size) >= 1 {
      MulStep(0, Page(g, size), g.page);
    }
  }

  /** A region with nothing allocated needs its first page only. */
  lemma InitialPages(g: Geometry, size: nat, pages: seq<bool>)
    requires g.Valid() && forall k :: 0 <= k < |pages| ==> pages[k] == (k == 0)
    ensures PagesMatch(g, [Free(0)], size, pages)
  {
    var row := [Free(0)];
    PageUnique(g, 0, 0);
    PageUnique(g, g.header - 1, 0);
    forall k | 0 <= k < |pages| ensures pages[k] == Needs(g, row, size, k) {
      assert Touches(g, row, size, 0, k) <==> k == 0;
    }
  }

  lemma PointerShift(pointer: nat, kernel: nat, shift: int)
    requires pointer < WORDS && kernel < WORDS
    ensures (pointer - shift) % WORDS == kernel <==> pointer == (kernel + shift) % WORDS
  {
  }

  /** The user pointer names the data of the buffer at `a`, in 64-bit arithmetic. */
  predicate PointsAt(g: Geometry, pointer: nat, base: nat, shift: int, a: nat) {
    pointer == (base + a + g.header + shift) % WORDS
  }

  /** The buffer address, relative to the region, that the driver looks for. */
  function KernelAddr(g: Geometry, pointer: nat, base: nat, shift: int): int {
    (pointer - shift - g.header) % WORDS - base
  }

  lemma PointerMatches(g: Geometry, row: seq<Buffer>, size: nat, pointer: nat, base: nat, shift: int, a: nat)
    requires g.Valid() && Tiled(g, row, size) && pointer < WORDS && base + size <= WORDS
    requires a in UsedAddrs(row)
    ensures KernelAddr(g, pointer, base, shift) == a <==> PointsAt(g, pointer, base, shift, a)
  {
    FreeAt(g, row, size, a);
    EndBounded(g, row, size, IndexOf(row, a));
    PointerShift(pointer, base + a, g.header + shift);
  }

  /** The address the driver looks for is a buffer's exactly when the user address names that buffer's data. */
  lemma PointersMatch(g: Geometry, row: seq<Buffer>, size: nat, pointer: nat, base: nat, shift: int)
    requires g.Valid() && Tiled(g, row, size) && pointer < WORDS && base + size <= WORDS
    ensures forall a {:trigger PointsAt(g, pointer, base, shift, a)} :: a in UsedAddrs(row) ==>
              (KernelAddr(g, pointer, base, shift) == a <==> PointsAt(g, pointer, base, shift, a))
  {
    forall a | a in UsedAddrs(row)
      ensures KernelAddr(g, pointer, base, shift) == a <==> PointsAt(g, pointer, base, shift, a)
    {
      PointerMatches(g, row, size, pointer, base, shift, a);
    }
  }

  /** The page table is determined by the row. */
  lemma PagesDetermined(g: Geometry, row: seq<Buffer>, size: nat, p: seq<bool>, q: seq<bool>)
    requires g.page > 0 && |p| == |q| && PagesMatch(g, row, size, p) && PagesMatch(g, row, size, q)
    ensures p == q
  {
  }

  /** With nothing allocated there is one free buffer, and only its first page is mapped. */
  lemma NothingAllocated(g: Geometry, row: seq<Buffer>, size: nat, pages: seq<bool>)
    requires g.Valid() && RowOk(g, row, size) && UsedAddrs(row) == {} && PagesMatch(g, row, size, pages)
    ensures row == [Free(0)] && Charges(g, row) == 0
    ensures forall k :: 0 <= k < |pages| ==> pages[k] == (k == 0)
  {
    forall j | 0 <= j < |row| ensures row[j].Free? {
      InRow(row, j);
    }
    AllFree(g, row, size);
    var first := seq(|pages|, k => k == 0);
    InitialPages(g, size, first);
    PagesDetermined(g, row, size, pages, first);
  }

  /**
   Buffer `i`, which ends where the next one starts, has become `b` with `need` bytes.
   If more than 4 bytes would be left after another header, that rest is a free
   buffer now; otherwise it stays with `b`.  No other buffer changes.
   */
  ghost predicate Split(g: Geometry, row: seq<Buffer>, row': seq<Buffer>, size: nat, i: nat, need: nat, b: Buffer) {
    && i < |row| && row[i] == Free(b.addr)
    && var (cut, end) := (b.addr + g.header + need, if i + 1 < |row| then row[i + 1].addr else size);
       && cut <= end
       && row' == if cut + g.header + 4 < end then row[..i] + [b, Free(cut)] + row[i + 1..] else row[i := b]
  }

  lemma SplitExact(g: Geometry, row: seq<Buffer>, size: nat, i: nat, need: nat, b: Buffer)
    requires Fits(g, row, size, i, need, b)
    ensures Split(g, row, Allocated(g, row, size, i, need, b), size, i, need, b)
  {
    var rest := Remainder(g, row, size, i, need);
    if rest.Some? {
      assert row[i := b][..i + 1] + [Free(rest.value)] + row[i := b][i + 1..] == row[..i] + [b, Free(rest.value)] + row[i + 1..];
    }
  }

  /** The free tree once buffer `i`, which is in no tree, has absorbed its free neighbours and been entered. */
  function MergedTree(g: Geometry, row: seq<Buffer>, size: nat, free: Tree, i: nat): Tree
    requires i < |row|
  {
    var right := if i + 1 < |row| && row[i + 1].Free? then Erase(free, row[i + 1].addr) else free;
    var left := i > 0 && row[i - 1].Free?;
    var at := if left then row[i - 1].addr else row[i].addr;
    Insert(if left then Erase(right, at) else right, at, Rooms(g, Merged(row, i), size))
  }

  /** A remainder starts at an address that no buffer has. */
  lemma RemainderNew(g: Geometry, row: seq<Buffer>, size: nat, i: nat, need: nat)
    requires g.Valid() && Tiled(g, row, size) && i < |row| && need <= Room(g, row, size, i) && Remainder(g, row, size, i, need).Some?
    ensures Remainder(g, row, size, i, need).value !in Addrs(row)
  {
    var a := Remainder(g, row, size, i, need).value;
    assert Placed(g, row, size, i);
    forall j | 0 <= j < |row|
      ensures row[j].addr != a
    {
      assert Placed(g, row, size, j);
      if j < i {
        Ordered(g, row, size, j, i);
      } else if i < j {
        Ordered(g, row, size, i, j);
      }
    }
  }

  /** The neighbours of a buffer that was just taken. */
  lemma TakenNeighbours(g: Geometry, row: seq<Buffer>, size: nat, i: nat, need: nat, b: Buffer)
    requires RowOk(g, row, size) && Fits(g, row, size, i, need, b)
    ensures var (rest, row') := (Remainder(g, row, size, i, need), Allocated(g, row, size, i, need, b));
            && i < |row'| && row'[i] == b && (i > 0 ==> row'[i - 1].Used?)
            && (if rest.Some? then i + 1 < |row'| && row'[i + 1] == Free(rest.value) else i + 1 < |row'| ==> row'[i + 1].Used?)
  {
    assert i > 0 ==> Apart(row, i - 1);
    assert i + 1 < |row| ==> Apart(row, i);
  }

  /** Freeing what was just allocated erases its remainder, and enters the buffer again behind those of its size. */
  lemma FreeTreeAgain(g: Geometry, row: seq<Buffer>, size: nat, free: Tree, i: nat, need: nat, b: Buffer)
    requires g.Valid() && RowOk(g, row, size) && Fits(g, row, size, i, need, b) && Elems(free) <= Addrs(row)
    ensures var (rest, row') := (Remainder(g, row, size, i, need), Allocated(g, row, size, i, need, b));
            && i < |row'| && row'[i] == b
            && MergedTree(g, row'[i := Free(b.addr)], size, FreeTreeAfter(g, row', size, free, b.addr, rest), i)
               == Insert(Erase(free, b.addr), b.addr, Rooms(g, row, size))
  {
    var rest, row' := Remainder(g, row, size, i, need), Allocated(g, row, size, i, need, b);
    TakenNeighbours(g, row, size, i, need, b);
    FreeUndoesAllocate(g, row, size, i, need, b);
    assert Merged(row'[i := Free(b.addr)], i) == row;
    if rest.Some? {
      RemainderNew(g, row, size, i, need);
      EraseInserted(Erase(free, b.addr), rest.value, Rooms(g, row', size));
    }
  }

  /** The free tree holds the buffer that is taken, and the other one does not. */
  lemma TreesBefore(g: Geometry, row: seq<Buffer>, size: nat, free: Tree, used: Tree, i: nat)
    requires g.Valid() && RowOk(g, row, size) && Indexed(g, row, size, free, used) && i < |row| && row[i].Free?
    ensures row[i].addr in Elems(free) && Elems(free) <= Addrs(row) && row[i].addr !in Elems(used)
    ensures Elems(Insert(Erase(free, row[i].addr), row[i].addr, Rooms(g, row, size))) == Elems(free)
  {
    NotBoth(g, row, size, i);
    InRow(row, i);
    EraseElems(free, row[i].addr, Rooms(g, row, size));
    SortedWithin(free, Rooms(g, row, size));
  }

  /** Address `a` has moved behind those of its key, which changes the order unless it was the last of them. */
  ghost predicate Moved(t: Tree, t': Tree, a: nat, keys: Keys) {
    && t' == Insert(Erase(t, a), a, keys) && Elems(t') == Elems(t)
    && (InOrder(t') == InOrder(t) <==> LastOfKey(InOrder(t), a, keys))
  }

  lemma TreeMoves(g: Geometry, row: seq<Buffer>, size: nat, free: Tree, used: Tree, i: nat)
    requires g.Valid() && RowOk(g, row, size) && Indexed(g, row, size, free, used) && i < |row| && row[i].Free?
    ensures Moved(free, Insert(Erase(free, row[i].addr), row[i].addr, Rooms(g, row, size)), row[i].addr, Rooms(g, row, size))
  {
    TreesBefore(g, row, size, free, used, i);
    ReinsertOrder(free, row[i].addr, Rooms(g, row, size));
  }

  function UsedCount(row: seq<Buffer>): nat {
    if row == [] then 0 else (if row[0].Used? then 1 else 0) + UsedCount(row[1..])
  }

  lemma {:induction false} UsedCountSplit(row: seq<Buffer>, tail: seq<Buffer>)
    ensures UsedCount(row + tail) == UsedCount(row) + UsedCount(tail)
  {
    if row == [] {
      assert row + tail == tail;
    } else {
      assert (row + tail)[1..] == row[1..] + tail;
      UsedCountSplit(row[1..], tail);
    }
  }

  lemma UsedCountFrom(row: seq<Buffer>, j: nat)
    requires j < |row|
    ensures UsedCount(row[j..]) == (if row[j].Used? then 1 else 0) + UsedCount(row[j + 1..])
  {
    assert row[j..][1..] == row[j + 1..];
  }

  lemma Halves(row: seq<Buffer>, j: nat)
    requires j <= |row|
    ensures row[..j] + row[j..] == row
  {
  }

  lemma UsedCountDrop(row: seq<Buffer>, j: nat)
    requires j < |row|
    ensures UsedCount(Drop(row, j)) == UsedCount(row) - (if row[j].Used? then 1 else 0)
  {
    Halves(row, j);
    UsedCountSplit(row[..j], row[j..]);
    UsedCountFrom(row, j);
    UsedCountSplit(row[..j], row[j + 1..]);
  }

  lemma FreedCount(row: seq<Buffer>, i: nat)
    requires i < |row| && row[i].Used?
    ensures UsedCount(Freed(row, i)) < UsedCount(row)
  {
    var freed := row[i := Free(row[i].addr)];
    UsedCountDrop(row, i);
    UsedCountDrop(freed, i);
    assert Drop(freed, i) == Drop(row, i);
    var right := if i + 1 < |row| && row[i + 1].Free? then Drop(freed, i + 1) else freed;
    if i + 1 < |row| && row[i + 1].Free? {
      UsedCountDrop(freed, i + 1);
    }
    if i > 0 && row[i - 1].Free? {
      UsedCountDrop(right, i);
    }
  }

  class Space {
    const g: Geometry
    const size: nat
    const pages: array<bool>
    var buffers: seq<Buffer>
    var freeTree: Tree
    var usedTree: Tree
    var freeAsync: nat

    ghost predicate Valid()
      reads this, pages
    {
      && Sized()
      && RowOk(g, buffers, size) && Indexed(g, buffers, size, freeTree, usedTree)
      && PagesMatch(g, buffers, size, pages[..])
      && freeAsync + Charges(g, buffers) == size / 2
    }

    ghost predicate Sized() {
      && g.Valid() && size > 0 && size % g.page == 0 && size + g.header + 4 < WORDS
      && pages.Length == Page(g, size)
    }

    /** Giving pages `[lo, hi)` to the region; a failure takes back what was given. */
    method MapPages(lo: nat, hi: nat, usable: bool, faults: map<nat, Fault>) returns (ok: bool)
      requires hi <= pages.Length
      requires forall k :: lo <= k < hi ==> !pages[k]
      modifies pages
      ensures ok <==> hi <= lo || (usable && forall k :: lo <= k < hi ==> k !in faults)
      ensures forall k :: 0 <= k < pages.Length ==> pages[k] == if ok && lo <= k < hi then true else old(pages[k])
    {
      if hi <= lo {
        return true;
      }
      if !usable {
        return false;
      }
      var i := lo;
      while i < hi
        invariant lo <= i <= hi
        invariant forall k :: lo <= k < i ==> k !in faults
        invariant forall k :: 0 <= k < pages.Length ==> pages[k] == if lo <= k < i then true else old(pages[k])
      {
        assert !pages[i];
        if i in faults {
          if faults[i] == NoPage {
            i := i - 1;
          } else {
            pages[i] := true;
          }
          TakePages(lo, i + 1);
          return false;
        }
        pages[i] := true;
        i := i + 1;
      }
      return true;
    }

    /** Taking mapped pages `[lo, hi)` away, last one first. */
    method TakePages(lo: nat, hi: nat)
      requires hi <= pages.Length
      requires forall k :: lo <= k < hi ==> pages[k]
      modifies pages
      ensures forall k :: 0 <= k < pages.Length ==> pages[k] == if lo <= k < hi then false else old(pages[k])
    {
      var i := hi;
      while i > lo
        invariant lo <= i <= hi || i == hi < lo
        invariant forall k :: 0 <= k < pages.Length ==> pages[k] == if i <= k < hi then false else old(pages[k])
        decreases i
      {
        i := i - 1;
        pages[i] := false;
      }
    }

    /**
     The size and budget tests of binder_alloc_buf.  The sum that is compared with
     the budget can wrap around, for a request that is too large for any buffer.
     */
    method CheckSize(data: nat, offsets: nat, extra: nat, async: bool) returns (need: Option<nat>)
      requires Sized() && data < WORDS && offsets < WORDS && extra < WORDS
      ensures need.Some? <==>
                var cost := TrueSize(data, offsets, extra) + g.header;
                && TrueSize(data, offsets, extra) < WORDS
                && (async ==> if cost < WORDS then cost <= freeAsync else cost - WORDS <= freeAsync)
      ensures need.Some? ==> need.value == TrueSize(data, offsets, extra) && need.value % 8 == 0
    {
      RequestSizeExact(data, offsets, extra);
      TrueSizeAligned(data, offsets, extra);
      need := RequestSize(data, offsets, extra);
      if need.Some? {
        WrappedCost(need.value, g.header);
      }
      if need.Some? && async && freeAsync < (need.value + g.header) % WORDS {
        need := None;
      }
    }

    /** The search for a free buffer that fits best. */
    method FindFit(need: nat) returns (fit: Option<nat>)
      requires g.Valid() && Tiled(g, buffers, size) && Indexed(g, buffers, size, freeTree, usedTree)
      ensures fit == None <==> !SomeFits(g, buffers, size, need)
      ensures fit.Some? ==>
                && fit.value < |buffers| && buffers[fit.value].Free? && Placed(g, buffers, size, fit.value)
                && need <= Room(g, buffers, size, fit.value)
                && BestFor(g, buffers, size, need, fit.value)
                && Fit(freeTree, Rooms(g, buffers, size), need) == Some(buffers[fit.value].addr)
                && IndexOf(buffers, buffers[fit.value].addr) == fit.value
    {
      var rooms := Rooms(g, buffers, size);
      SortedWithin(freeTree, rooms);
      var best := BestFit(freeTree, rooms, need);
      if best == None {
        return None;
      }
      FreeAt(g, buffers, size, best.value);
      var i := IndexOf(buffers, best.value);
      RoomsAt(g, buffers, size, i);
      BestAmongAll(g, buffers, size, need, i);
      assert SomeFits(g, buffers, size, need) by {
        assert best.value in FreeAddrs(buffers);
      }
      return Some(i);
    }

    /**
     binder_alloc_buf.  `vma` tells whether the process has the region mapped,
     `usable` whether its mapping can be changed now, `faults` which pages cannot
     be given.
     */
    method AllocBuf(data: nat, offsets: nat, extra: nat, async: bool, vma: bool, usable: bool, faults: map<nat, Fault>)
        returns (r: Option<nat>, i: nat)
      requires Valid() && data < WORDS && offsets < WORDS && extra < WORDS
      modifies this, pages
      ensures Valid()
      ensures r.Some? <==> vma && old(Granted(TrueSize(data, offsets, extra), async, usable, faults))
      ensures r == None ==>
                && buffers == old(buffers) && pages[..] == old(pages[..]) && freeAsync == old(freeAsync)
                && freeTree == old(freeTree) && usedTree == old(usedTree)
      ensures r.Some? ==> Took(old(buffers), old(freeTree), old(usedTree), i, TrueSize(data, offsets, extra),
                               Used(r.value, data, offsets, extra, async))
      ensures r.Some? ==> freeAsync == old(freeAsync) - (if async then TrueSize(data, offsets, extra) + g.header else 0)
      ensures r.Some? ==> Split(g, old(buffers), buffers, size, i, TrueSize(data, offsets, extra), Used(r.value, data, offsets, extra, async))
    {
      r, i := None, 0;
      BudgetOfFit(g, buffers, size, TrueSize(data, offsets, extra));
      var need := CheckSize(data, offsets, extra, async);
      if vma && need.Some? {
        var fit := FindFit(need.value);
        if fit.Some? {
          i := fit.value;
          var b := Used(buffers[i].addr, data, offsets, extra, async);
          var ok := MapFor(i, need.value, b, usable, faults);
          if ok {
            Commit(i, need.value, b);
            r := Some(b.addr);
          }
        }
      }
    }

    /**
     A request of `need` bytes can be met: its size is a 64-bit number, its cost is
     within the budget, a free buffer has room, and the pages of the one that fits
     best can be mapped.
     */
    ghost predicate Granted(need: nat, async: bool, usable: bool, faults: map<nat, Fault>)
      reads this
    {
      && need < WORDS && (async ==> need + g.header <= freeAsync) && SomeFits(g, buffers, size, need)
      && var fit := Fit(freeTree, Rooms(g, buffers, size), need);
         fit.Some? && fit.value in Addrs(buffers) && g.Valid() ==> Mappable(g, buffers, size, IndexOf(buffers, fit.value), need, usable, faults)
    }

    /** Buffer `i`, a best fit and the one where the search ended, was taken from the row and trees given. */
    ghost predicate Took(row: seq<Buffer>, free: Tree, used: Tree, i: nat, need: nat, b: Buffer)
      reads this
    {
      && Fits(g, row, size, i, need, b) && BestFor(g, row, size, need, i) && Fit(free, Rooms(g, row, size), need) == Some(b.addr)
      && Carved(row, free, used, i, need, b)
    }

    /** The row and the trees once buffer `i` has been taken, and its remainder cut off. */
    ghost predicate Carved(row: seq<Buffer>, free: Tree, used: Tree, i: nat, need: nat, b: Buffer)
      requires i < |row|
      reads this
    {
      && buffers == Allocated(g, row, size, i, need, b)
      && freeTree == FreeTreeAfter(g, buffers, size, free, b.addr, Remainder(g, row, size, i, need))
      && usedTree == Insert(used, b.addr, Same(row[i := b]))
    }

    /** Mapping the pages that an allocation described by `b` will need. */
    method MapFor(i: nat, need: nat, ghost b: Buffer, usable: bool, faults: map<nat, Fault>) returns (ok: bool)
      requires Valid() && Fits(g, buffers, size, i, need, b)
      modifies pages
      ensures ok <==> Mappable(g, buffers, size, i, need, usable, faults)
      ensures ok ==> PagesMatch(g, Allocated(g, buffers, size, i, need, b), size, pages[..])
      ensures !ok ==> pages[..] == old(pages[..])
    {
      MapEndBounded(g, buffers, size, i, need);
      MapRangeUnmapped(g, buffers, size, i, need, pages[..]);
      ok := MapPages(PageUp(g, buffers[i].addr + g.header), MapEnd(g, buffers, size, i, need), usable, faults);
      if ok {
        MatchAfterAlloc(g, buffers, size, i, need, b, old(pages[..]), pages[..]);
      } else {
        assert pages[..] == old(pages[..]);
      }
    }

    /** Taking `need` bytes of the free buffer `i`, in the row, in the trees and in the budget. */
    method Commit(i: nat, need: nat, b: Buffer)
      requires Sized() && RowOk(g, buffers, size) && Indexed(g, buffers, size, freeTree, usedTree)
      requires freeAsync + Charges(g, buffers) == size / 2
      requires Fits(g, buffers, size, i, need, b) && (b.async ==> need + g.header <= freeAsync)
      requires PagesMatch(g, Allocated(g, buffers, size, i, need, b), size, pages[..])
      modifies this
      ensures Valid() && Carved(old(buffers), old(freeTree), old(usedTree), i, need, b)
      ensures freeAsync == old(freeAsync) - (if b.async then need + g.header else 0)
      ensures Split(g, old(buffers), buffers, size, i, need, b)
    {
      AllocatedKeeps(g, buffers, size, freeTree, usedTree, i, need, b);
      SplitExact(g, buffers, size, i, need, b);
      var rest := Remainder(g, buffers, size, i, need);
      var cost := if b.async then need + g.header else 0;
      ghost var row := Taken(buffers, i, b, rest);
      ghost var free, used := FreeTreeAfter(g, row, size, freeTree, b.addr, rest), Insert(usedTree, b.addr, Same(buffers[i := b]));
      assert cost == Charge(g, b);
      Carve(i, b, rest);
      assert buffers == row && freeTree == free && usedTree == used;
      freeAsync := freeAsync - cost;
    }

    /** Relabelling buffer `i`, cutting off the remainder, and keeping the trees in step. */
    method Carve(i: nat, b: Buffer, rest: Option<nat>)
      requires i < |buffers|
      modifies this`buffers, this`freeTree, this`usedTree
      ensures buffers == Taken(old(buffers), i, b, rest)
      ensures freeTree == FreeTreeAfter(g, buffers, size, old(freeTree), b.addr, rest)
      ensures usedTree == Insert(old(usedTree), b.addr, Same(old(buffers)[i := b]))
    {
      freeTree := Erase(freeTree, b.addr);
      buffers := buffers[i := b];
      usedTree := Insert(usedTree, b.addr, Same(buffers));
      if rest.Some? {
        buffers := Cut(buffers, i, rest.value);
        freeTree := Insert(freeTree, rest.value, Rooms(g, buffers, size));
      }
    }

    /** binder_delete_free_buffer: buffer `j` is merged into its free predecessor. */
    method DeleteFreeBuffer(j: nat)
      requires Sized() && Tiled(g, buffers, size) && PagesMatch(g, buffers, size, pages[..])
      requires 0 < j < |buffers| && buffers[j].Free? && buffers[j - 1].Free?
      modifies this`buffers, pages
      ensures buffers == Drop(old(buffers), j)
      ensures Tiled(g, buffers, size) && PagesMatch(g, buffers, size, pages[..])
    {
      OwnHeaderMapped(g, buffers, size, j, pages[..]);
      DropTiled(g, buffers, size, j);
      var prevEnd := Page(g, buffers[j - 1].addr + g.header - 1);
      var start, end := Page(g, buffers[j].addr), Page(g, buffers[j].addr + g.header - 1);
      var freeStart, freeEnd := true, true;
      if prevEnd == start {
        freeStart := false;
        if prevEnd == end {
          freeEnd := false;
        }
      }
      if j + 1 < |buffers| {
        var nextStart := Page(g, buffers[j + 1].addr);
        if nextStart == end {
          freeEnd := false;
          if nextStart == start {
            freeStart := false;
          }
        }
      }
      if freeStart || freeEnd {
        TakePages(if freeStart then start else end, (if freeEnd then end else start) + 1);
      }
      MatchAfterMerge(g, buffers, size, j, old(pages[..]), pages[..]);
      buffers := Drop(buffers, j);
    }

    /** Taking the data pages of buffer `i` away and marking it free. */
    method Release(i: nat)
      requires Valid() && i < |buffers| && buffers[i].Used?
      modifies this`buffers, this`usedTree, this`freeAsync, pages
      ensures buffers == old(buffers)[i := Free(old(buffers[i].addr))]
      ensures usedTree == Erase(old(usedTree), old(buffers[i].addr))
      ensures PagesMatch(g, buffers, size, pages[..])
      ensures freeAsync == old(freeAsync + Charge(g, buffers[i]))
    {
      var b := buffers[i];
      RefundExact(g, buffers, size, i);
      var stored := StoredSize(b);
      assert stored <= Room(g, buffers, size, i);
      if b.async {
        freeAsync := freeAsync + stored + g.header;
      }
      UnmapData(i);
      usedTree := Erase(usedTree, b.addr);
      buffers := buffers[i := Free(b.addr)];
    }

    /** Taking away the pages that only the data of buffer `i` needs. */
    method UnmapData(i: nat)
      requires Sized() && Tiled(g, buffers, size) && PagesMatch(g, buffers, size, pages[..])
      requires i < |buffers| && buffers[i].Used?
      modifies pages
      ensures PagesMatch(g, buffers[i := Free(buffers[i].addr)], size, pages[..])
    {
      ReleaseRange(g, buffers, size, i, pages[..]);
      TakePages(PageUp(g, buffers[i].addr + g.header), Page(g, End(buffers, size, i)));
      MatchAfterRelease(g, buffers, size, i, old(pages[..]), pages[..]);
    }

    /** Merging the free buffer `i`, which is in no tree, with its free neighbours, and entering the result. */
    method Merge(i: nat)
      requires Sized() && Tiled(g, buffers, size) && PagesMatch(g, buffers, size, pages[..])
      requires i < |buffers| && buffers[i].Free?
      requires IndexedBut(g, buffers, size, freeTree, usedTree, buffers[i].addr)
      modifies this`buffers, this`freeTree, pages
      ensures buffers == Merged(old(buffers), i) && freeTree == MergedTree(g, old(buffers), size, old(freeTree), i)
      ensures Tiled(g, buffers, size) && PagesMatch(g, buffers, size, pages[..])
      ensures Indexed(g, buffers, size, freeTree, usedTree)
    {
      MergeRight(i);
      var at := MergeLeft(i);
      ReturnIndexed(g, buffers, size, freeTree, usedTree, at);
      freeTree := Insert(freeTree, at, Rooms(g, buffers, size));
    }

    /** A free buffer after `i` is absorbed. */
    method MergeRight(i: nat)
      requires Sized() && Tiled(g, buffers, size) && PagesMatch(g, buffers, size, pages[..])
      requires i < |buffers| && buffers[i].Free?
      requires IndexedBut(g, buffers, size, freeTree, usedTree, buffers[i].addr)
      modifies this`buffers, this`freeTree, pages
      ensures i < |buffers| && buffers[i] == old(buffers[i]) && (i > 0 ==> buffers[i - 1] == old(buffers[i - 1]))
      ensures buffers == if i + 1 < |old(buffers)| && old(buffers)[i + 1].Free? then Drop(old(buffers), i + 1) else old(buffers)
      ensures freeTree == if i + 1 < |old(buffers)| && old(buffers)[i + 1].Free? then Erase(old(freeTree), old(buffers)[i + 1].addr) else old(freeTree)
      ensures Tiled(g, buffers, size) && PagesMatch(g, buffers, size, pages[..])
      ensures IndexedBut(g, buffers, size, freeTree, usedTree, buffers[i].addr)
    {
      if i + 1 < |buffers| && buffers[i + 1].Free? {
        DropTiled(g, buffers, size, i + 1);
        AbsorbNext(g, buffers, size, freeTree, usedTree, i + 1);
        freeTree := Erase(freeTree, buffers[i + 1].addr);
        DeleteFreeBuffer(i + 1);
      }
    }

    /** Buffer `i` is absorbed by a free buffer before it, which leaves its tree; `at` is where the result is. */
    method MergeLeft(i: nat) returns (at: nat)
      requires Sized() && Tiled(g, buffers, size) && PagesMatch(g, buffers, size, pages[..])
      requires i < |buffers| && buffers[i].Free?
      requires IndexedBut(g, buffers, size, freeTree, usedTree, buffers[i].addr)
      modifies this`buffers, this`freeTree, pages
      ensures at == if i > 0 && old(buffers)[i - 1].Free? then old(buffers)[i - 1].addr else old(buffers)[i].addr
      ensures buffers == if i > 0 && old(buffers)[i - 1].Free? then Drop(old(buffers), i) else old(buffers)
      ensures freeTree == if i > 0 && old(buffers)[i - 1].Free? then Erase(old(freeTree), at) else old(freeTree)
      ensures Tiled(g, buffers, size) && PagesMatch(g, buffers, size, pages[..])
      ensures IndexedBut(g, buffers, size, freeTree, usedTree, at)
      ensures at in Addrs(buffers)
    {
      at := buffers[i].addr;
      InRow(buffers, i);
      if i > 0 && buffers[i - 1].Free? {
        at := buffers[i - 1].addr;
        DropTiled(g, buffers, size, i);
        AbsorbInto(g, buffers, size, freeTree, usedTree, i);
        DeleteFreeBuffer(i);
        freeTree := Erase(freeTree, at);
        InRow(buffers, i - 1);
      }
    }

    /** binder_free_buf, on the allocated buffer at position `i` of the row. */
    method FreeAtIndex(i: nat)
      requires Valid() && i < |buffers| && buffers[i].Used?
      modifies this, pages
      ensures Valid()
      ensures buffers == Freed(old(buffers), i)
      ensures freeTree == MergedTree(g, old(buffers)[i := Free(old(buffers)[i].addr)], size, old(freeTree), i)
      ensures usedTree == Erase(old(usedTree), old(buffers)[i].addr)
      ensures freeAsync == old(freeAsync) + Charge(g, old(buffers)[i])
    {
      FreedOk(g, buffers, size, i);
      FreedCharges(g, buffers, i);
      RelabelTiled(g, buffers, size, i, Free(buffers[i].addr));
      ReleaseIndexed(g, buffers, size, freeTree, usedTree, i);
      Release(i);
      Merge(i);
    }

    /** binder_free_buf, on the allocated buffer at `a`. */
    method FreeBuf(a: nat) returns (i: nat)
      requires Valid() && a in UsedAddrs(buffers)
      modifies this, pages
      ensures Valid()
      ensures i < |old(buffers)| && old(buffers)[i].Used? && old(buffers)[i].addr == a
      ensures buffers == Freed(old(buffers), i)
      ensures freeAsync == old(freeAsync) + Charge(g, old(buffers)[i])
    {
      FreeAt(g, buffers, size, a);
      i := IndexOf(buffers, a);
      FreeAtIndex(i);
    }

    /** binder_mmap: one free buffer, and only the page of its header. */
    constructor (g: Geometry, size: nat)
      requires g.Valid() && size > 0 && size % g.page == 0 && size + g.header + 4 < WORDS
      ensures Valid() && this.g == g && this.size == size && fresh(pages)
      ensures buffers == [Free(0)] && freeTree == Node(Leaf, 0, Leaf)
    {
      this.g, this.size := g, size;
      buffers := [Free(0)];
      freeTree, usedTree := Node(Leaf, 0, Leaf), Leaf;
      freeAsync := size / 2;
      pages := new bool[Page(g, size)](k => k == 0);
      new;
      assert Placed(g, buffers, size, 0) by {
        PageBelow(g, 0, size);
        WholePage(g, size);
      }
      assert PagesMatch(g, buffers, size, pages[..]) by {
        InitialPages(g, size, pages[..]);
      }
    }

    /**
     binder_buffer_lookup: the allocated buffer whose data a user pointer names.
     The kernel sees the region at `base`, the user at `base + shift`; pointers are
     64-bit words.
     */
    method Lookup(pointer: nat, base: nat, shift: int) returns (r: Option<nat>)
      requires Valid() && pointer < WORDS && base + size <= WORDS
      ensures r.Some? ==> r.value in UsedAddrs(buffers)
      ensures forall a {:trigger PointsAt(g, pointer, base, shift, a)} :: a in UsedAddrs(buffers) ==>
                (r == Some(a) <==> PointsAt(g, pointer, base, shift, a))
    {
      PointersMatch(g, buffers, size, pointer, base, shift);
      var a := KernelAddr(g, pointer, base, shift);
      SortedWithin(usedTree, Same(buffers));
      var found := Find(usedTree, Same(buffers), a);
      r := if found then Some(a) else None;
    }

    /** binder_deferred_release: freeing everything leaves what binder_mmap made. */
    method ReleaseAll()
      requires Valid()
      modifies this, pages
      ensures Valid()
      ensures buffers == [Free(0)] && freeAsync == size / 2
      ensures forall k :: 0 <= k < pages.Length ==> pages[k] == (k == 0)
    {
      while usedTree.Node?
        invariant Valid()
        decreases UsedCount(buffers)
      {
        ghost var was := buffers;
        var i := FreeBuf(usedTree.addr);
        FreedCount(was, i);
      }
      NothingAllocated(g, buffers, size, pages[..]);
    }

    /**
     Allocating a buffer and freeing it again restores the row, the page table,
     the budget and the tree of allocated buffers, and the free tree up to one
     change: the buffer moves behind all free ones of its size.  The order is the
     same again exactly when it was the last of its size.
     */
    method AllocateThenFree(data: nat, offsets: nat, extra: nat, async: bool, usable: bool, faults: map<nat, Fault>) returns (r: Option<nat>)
      requires Valid() && data < WORDS && offsets < WORDS && extra < WORDS
      modifies this, pages
      ensures Valid()
      ensures buffers == old(buffers) && pages[..] == old(pages[..]) && freeAsync == old(freeAsync) && usedTree == old(usedTree)
      ensures r.Some? <==> old(Granted(TrueSize(data, offsets, extra), async, usable, faults))
      ensures r.None? ==> freeTree == old(freeTree)
      ensures r.Some? ==>
                && r == old(Fit(freeTree, Rooms(g, buffers, size), TrueSize(data, offsets, extra)))
                && Moved(old(freeTree), freeTree, r.value, Rooms(g, buffers, size))
    {
      var i;
      r, i := AllocBuf(data, offsets, extra, async, true, usable, faults);
      if r.Some? {
        FreeAgain(i, TrueSize(data, offsets, extra), Used(r.value, data, offsets, extra, async),
                  old(buffers), old(freeTree), old(usedTree), old(pages[..]));
      }
    }

    /** Freeing the buffer `b` that was taken from the row and trees given. */
    method FreeAgain(i: nat, ghost need: nat, ghost b: Buffer, ghost row: seq<Buffer>, ghost free: Tree, ghost used: Tree, ghost mapped: seq<bool>)
      requires Valid() && RowOk(g, row, size) && Indexed(g, row, size, free, used)
      requires Fits(g, row, size, i, need, b) && Carved(row, free, used, i, need, b)
      requires |mapped| == pages.Length && PagesMatch(g, row, size, mapped)
      modifies this, pages
      ensures Valid() && buffers == row && usedTree == used && pages[..] == mapped
      ensures Moved(free, freeTree, b.addr, Rooms(g, row, size))
      ensures freeAsync == old(freeAsync) + Charge(g, b)
    {
      TreesBefore(g, row, size, free, used, i);
      TreeMoves(g, row, size, free, used, i);
      FreeTreeAgain(g, row, size, free, i, need, b);
      FreeUndoesAllocate(g, row, size, i, need, b);
      EraseInserted(used, b.addr, Same(row[i := b]));
      FreeAtIndex(i);
      PagesDetermined(g, buffers, size, pages[..], mapped);
    }
  }
}
