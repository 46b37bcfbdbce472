/** Whole runs of the buffer allocator. */
module BufferRuns {

  import opened Wrappers
  import opened BufferLayout
  import opened BufferRow
  import opened SearchTree
  import opened BufferIndex
  import opened BufferSpace
  import opened TreeOrder

  datatype Request =
    | Alloc(data: nat, offsets: nat, extra: nat, async: bool, vma: bool, usable: bool, faults: map<nat, Fault>)
    | Release(pointer: nat, base: nat, shift: int)

  method Serve(s: Space, r: Request)
    requires s.Valid()
    modifies s, s.pages
    ensures s.Valid()
  {
    match r
    case Alloc(data, offsets, extra, async, vma, usable, faults) =>
      if data < WORDS && offsets < WORDS && extra < WORDS {
        var _, _ := s.AllocBuf(data, offsets, extra, async, vma, usable, faults);
      }
    case Release(pointer, base, shift) =>
      if pointer < WORDS && base + s.size <= WORDS {
        var found := s.Lookup(pointer, base, shift);
        if found.Some? {
          var _ := s.FreeBuf(found.value);
        }
      }
  }

  /**
   After any run of requests, failed ones included: the buffers tile the
   region, no two free ones touch, none wastes room for another, a page is mapped exactly when a header or
   allocated data needs it, and the budget is exact.
   */
  method Run(g: Geometry, size: nat, requests: seq<Request>) returns (s: Space)
    requires g.Valid() && size > 0 && size % g.page == 0 && size + g.header + 4 < WORDS
    ensures s.Valid() && s.g == g && s.size == size
    ensures Tiled(g, s.buffers, size) && Coalesced(s.buffers) && AllRoomy(g, s.buffers, size)
    ensures forall k :: 0 <= k < s.pages.Length ==> s.pages[k] == Needs(g, s.buffers, size, k)
    ensures s.freeAsync + Charges(g, s.buffers) == size / 2
    ensures Elems(s.freeTree) == FreeAddrs(s.buffers) && Elems(s.usedTree) == UsedAddrs(s.buffers)
  {
    s := new Space(g, size);
    for k := 0 to |requests|
      invariant s.Valid() && s.g == g && s.size == size && fresh(s) && fresh(s.pages)
    {
      Serve(s, requests[k]);
    }
  }

  // --- free buffers of one size --------------------------------------------------

  const SMALL := Geometry(4096, 64)

  /** The buffer of the `j`th request, of 8 bytes. */
  function Nth(j: nat): Buffer {
    Used(72 * j, 8, 0, 0, false)
  }

  /** The row after `k` requests of 8 bytes. */
  function Filled(k: nat): seq<Buffer> {
    seq(k, j requires 0 <= j => Nth(j)) + [Free(72 * k)]
  }

  /** The row when the first `f` of the buffers at 72, 216 and 360 have been freed. */
  function Punched(f: nat): seq<Buffer> {
    var row := if f < 1 then Filled(7) else Filled(7)[1 := Free(72)];
    var row := if f < 2 then row else row[3 := Free(216)];
    if f < 3 then row else row[5 := Free(360)]
  }

  /** The free tree then. */
  function PunchedTree(f: nat): Tree {
    Node(if f < 1 then Leaf else Node(Leaf, 72, if f < 2 then Leaf else Node(Leaf, 216, if f < 3 then Leaf else Node(Leaf, 360, Leaf))), 504, Leaf)
  }

  lemma FilledAt(k: nat, i: nat)
    requires i <= k
    ensures |Filled(k)| == k + 1 && Filled(k)[i] == if i < k then Nth(i) else Free(72 * k)
  {
  }

  lemma FillCut(k: nat)
    ensures |Filled(k)| == k + 1 && Cut(Filled(k)[k := Nth(k)], k, 72 * (k + 1)) == Filled(k + 1)
  {
    FilledAt(k, k);
    forall i | 0 <= i < k
      ensures Filled(k)[i] == Filled(k + 1)[i]
    {
      FilledAt(k, i);
      FilledAt(k + 1, i);
    }
    assert Filled(k)[k + 1..] == [];
  }

  lemma FillRest(k: nat)
    requires k < 7
    ensures |Filled(k)| == k + 1 && Remainder(SMALL, Filled(k), 4096, k, 8) == Some(72 * (k + 1))
  {
    FilledAt(k, k);
    assert Room(SMALL, Filled(k), 4096, k) == 4096 - 72 * k - 64;
  }

  lemma FillStep(k: nat, i: nat, b: Buffer)
    requires k < 7 && i < |Filled(k)| && Filled(k)[i].Free? && b == Used(Filled(k)[i].addr, 8, 0, 0, false)
    ensures i == k && Remainder(SMALL, Filled(k), 4096, i, 8) == Some(72 * (k + 1))
    ensures Allocated(SMALL, Filled(k), 4096, i, 8, b) == Filled(k + 1)
  {
    FilledAt(k, k);
    FilledAt(k, i);
    FillRest(k);
    FillCut(k);
  }

  /** There is room for another 8 bytes. */
  lemma FillFits(k: nat)
    requires k < 7 && Tiled(SMALL, Filled(k), 4096)
    ensures SMALL.Valid() && SomeFits(SMALL, Filled(k), 4096, 8)
  {
    var row := Filled(k);
    assert row[k] == Free(72 * k);
    RoomsAt(SMALL, row, 4096, k);
    InRow(row, k);
  }

  /** Freeing the buffer in position `2 * f + 1` merges it with nothing. */
  lemma PunchStep(f: nat)
    requires f < 3
    ensures var i, row := 2 * f + 1, Punched(f);
            && i < |row| && row[i] == Nth(i)
            && Freed(row, i) == Punched(f + 1) && row[i := Free(row[i].addr)] == Punched(f + 1)
            && !(i + 1 < |row| && row[i + 1].Free?) && row[i - 1].Used?
  {
    var i, row := 2 * f + 1, Punched(f);
    assert |row| == 8 && row[i] == Nth(i) && row[i - 1] == Nth(i - 1) && row[i + 1] == Nth(i + 1);
  }

  /** The sizes of the free buffers. */
  lemma PunchedRooms(f: nat)
    requires f <= 3 && Tiled(SMALL, Punched(f), 4096)
    ensures SMALL.Valid() && var rooms := Rooms(SMALL, Punched(f), 4096);
            && KeyOf(rooms, 72) == KeyOf(rooms, 216) == KeyOf(rooms, 360) == 8 && KeyOf(rooms, 504) == 3528
  {
    var row := Punched(f);
    assert row[1].addr == 72 && row[2].addr == 144 && row[3].addr == 216 && row[4].addr == 288;
    assert row[5].addr == 360 && row[6].addr == 432 && row[7].addr == 504;
    RoomsAt(SMALL, row, 4096, 1);
    RoomsAt(SMALL, row, 4096, 3);
    RoomsAt(SMALL, row, 4096, 5);
    RoomsAt(SMALL, row, 4096, 7);
  }

  lemma PunchTree(f: nat, rooms: Keys)
    requires f < 3 && KeyOf(rooms, 72) == KeyOf(rooms, 216) == KeyOf(rooms, 360) == 8 && KeyOf(rooms, 504) == 3528
    ensures Insert(PunchedTree(f), 72 * (2 * f + 1), rooms) == PunchedTree(f + 1)
  {
    var t := PunchedTree(f).left;
    var a := 72 * (2 * f + 1);
    var one, two := Node(Leaf, 72, Leaf), Node(Leaf, 216, Leaf);
    assert Insert(Leaf, a, rooms) == Node(Leaf, a, Leaf);
    assert f > 1 ==> Insert(two, a, rooms) == Node(Leaf, 216, Node(Leaf, a, Leaf));
    assert Insert(t, a, rooms) == PunchedTree(f + 1).left;
  }

  lemma PunchMerges(f: nat)
    requires f < 3 && Tiled(SMALL, Punched(f + 1), 4096)
    ensures var i, row := 2 * f + 1, Punched(f);
            i < |row| && MergedTree(SMALL, row[i := Free(row[i].addr)], 4096, PunchedTree(f), i) == PunchedTree(f + 1)
  {
    PunchStep(f);
    PunchedRooms(f + 1);
    PunchTree(f, Rooms(SMALL, Punched(f + 1), 4096));
  }

  /** The `k + 1`st request. */
  method Fill(s: Space, k: nat)
    requires k < 7 && s.Valid() && s.g == SMALL && s.size == 4096
    requires s.buffers == Filled(k) && s.freeTree == Node(Leaf, 72 * k, Leaf)
    modifies s, s.pages
    ensures s.Valid() && s.buffers == Filled(k + 1) && s.freeTree == Node(Leaf, 72 * (k + 1), Leaf)
  {
    FillFits(k);
    assert TrueSize(8, 0, 0) == 8;
    var r, i := s.AllocBuf(8, 0, 0, false, true, true, map[]);
    FillStep(k, i, Used(r.value, 8, 0, 0, false));
  }

  method Punch(s: Space, f: nat)
    requires f < 3 && s.Valid() && s.g == SMALL && s.size == 4096
    requires s.buffers == Punched(f) && s.freeTree == PunchedTree(f)
    modifies s, s.pages
    ensures s.Valid() && s.buffers == Punched(f + 1) && s.freeTree == PunchedTree(f + 1)
  {
    PunchStep(f);
    s.FreeAtIndex(2 * f + 1);
    PunchMerges(f);
  }

  method FilledUp() returns (s: Space)
    ensures fresh(s) && fresh(s.pages) && s.Valid() && s.g == SMALL && s.size == 4096
    ensures s.buffers == Filled(7) && s.freeTree == Node(Leaf, 504, Leaf)
  {
    s := new Space(SMALL, 4096);
    for k := 0 to 7
      invariant fresh(s) && fresh(s.pages) && s.Valid() && s.g == SMALL && s.size == 4096
      invariant s.buffers == Filled(k) && s.freeTree == Node(Leaf, 72 * k, Leaf)
    {
      Fill(s, k);
    }
  }

  /** A run: seven requests of 8 bytes, and frees of the second, the fourth and the sixth. */
  method HolesReached() returns (s: Space)
    ensures fresh(s) && fresh(s.pages) && s.Valid() && s.g == SMALL && s.size == 4096
    ensures s.buffers == Punched(3) && s.freeTree == PunchedTree(3)
  {
    s := FilledUp();
    for f := 0 to 3
      invariant fresh(s) && fresh(s.pages) && s.Valid() && s.g == SMALL && s.size == 4096
      invariant s.buffers == Punched(f) && s.freeTree == PunchedTree(f)
    {
      Punch(s, f);
    }
  }

  lemma HolesOrder(rooms: Keys)
    requires KeyOf(rooms, 72) == KeyOf(rooms, 216) == KeyOf(rooms, 360) == 8 && KeyOf(rooms, 504) == 3528
    ensures Fit(PunchedTree(3), rooms, 8) == Some(72) && InOrder(PunchedTree(3)) == [72, 216, 360, 504]
    ensures InOrder(Insert(Erase(PunchedTree(3), 72), 72, rooms)) == [216, 360, 72, 504]
  {
    var one, two, three := Node(Leaf, 72, Leaf), Node(Leaf, 216, Node(Leaf, 360, Leaf)), Node(Leaf, 360, Leaf);
    var left := Node(Leaf, 72, two);
    assert Fit(left, rooms, 8) == Some(72);
    assert InOrder(three) == [360] && InOrder(two) == [216, 360] && InOrder(left) == [72, 216, 360];
    assert Erase(left, 72) == two && Erase(PunchedTree(3), 72) == Node(two, 504, Leaf);
    assert Insert(three, 72, rooms) == Node(Leaf, 360, one);
    assert InOrder(one) == [72] && InOrder(Insert(three, 72, rooms)) == [360, 72];
    assert Insert(two, 72, rooms) == Node(Leaf, 216, Insert(three, 72, rooms));
    assert InOrder(Insert(two, 72, rooms)) == [216, 360, 72];
    assert Insert(Node(two, 504, Leaf), 72, rooms) == Node(Insert(two, 72, rooms), 504, Leaf);
  }

  lemma PunchedFits()
    requires Tiled(SMALL, Punched(3), 4096)
    ensures SMALL.Valid() && SomeFits(SMALL, Punched(3), 4096, 8)
  {
    assert Punched(3)[7] == Free(504);
    RoomsAt(SMALL, Punched(3), 4096, 7);
    InRow(Punched(3), 7);
  }

  /** A request of 8 bytes gets the buffer at 72, and freeing it puts it behind the two others. */
  method FirstMoves(s: Space) returns (r: Option<nat>)
    requires s.Valid() && s.g == SMALL && s.size == 4096
    requires s.buffers == Punched(3) && s.freeTree == PunchedTree(3)
    modifies s, s.pages
    ensures s.Valid() && s.buffers == old(s.buffers) && r == Some(72)
    ensures old(InOrder(s.freeTree)) == [72, 216, 360, 504] && InOrder(s.freeTree) == [216, 360, 72, 504]
  {
    PunchedRooms(3);
    HolesOrder(Rooms(SMALL, Punched(3), 4096));
    assert TrueSize(8, 0, 0) == 8;
    PunchedFits();
    r := s.AllocateThenFree(8, 0, 0, false, true, map[]);
  }

  /** A run that allocates and frees a buffer at its end and leaves the free tree in another order. */
  method OrderLost() returns (s: Space, before: seq<nat>)
    ensures fresh(s) && fresh(s.pages) && s.Valid() && s.buffers == Punched(3)
    ensures before == [72, 216, 360, 504] && InOrder(s.freeTree) == [216, 360, 72, 504]
  {
    s := HolesReached();
    before := InOrder(s.freeTree);
    var _ := FirstMoves(s);
  }

  /** The shape that red and black rotations give the same tree. */
  function Rotated(): Tree {
    Node(Node(Leaf, 72, Leaf), 216, Node(Node(Leaf, 360, Leaf), 504, Leaf))
  }

  /** In that shape the buffer at 216 fits first, and moves behind the one at 360. */
  lemma RotatedOrderLost(rooms: Keys)
    requires KeyOf(rooms, 72) == KeyOf(rooms, 216) == KeyOf(rooms, 360) == 8 && KeyOf(rooms, 504) == 3528
    ensures Fit(Rotated(), rooms, 8) == Some(216) && InOrder(Rotated()) == [72, 216, 360, 504]
    ensures InOrder(Insert(Erase(Rotated(), 216), 216, rooms)) == [72, 360, 216, 504]
  {
    var first, third := Node(Leaf, 72, Leaf), Node(Leaf, 360, Leaf);
    var last, back := Node(third, 504, Leaf), Node(Leaf, 360, Node(Leaf, 216, Leaf));
    assert InOrder(first) == [72] && InOrder(third) == [360] && InOrder(last) == [360, 504];
    assert Erase(Rotated(), 216) == Node(Leaf, 72, last);
    assert Insert(third, 216, rooms) == back && Insert(last, 216, rooms) == Node(back, 504, Leaf);
    assert InOrder(Node(Leaf, 216, Leaf)) == [216] && InOrder(back) == [360, 216];
    assert InOrder(Node(back, 504, Leaf)) == [360, 216, 504];
  }
}
