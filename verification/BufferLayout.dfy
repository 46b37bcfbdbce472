/**
 The address space of a binder process: a row of buffers, each a header followed
 by its data, that covers the mapped region without gaps, and the pages such a
 row needs.  Addresses are offsets from the start of the region.
 */
module BufferLayout {
  import opened Wrappers

  /** Page size and size of the in-place buffer header, in bytes. */
  datatype Geometry = Geometry(page: nat, header: nat) {
    predicate Valid() {
      page > 0 && header > 0 && page % 8 == 0 && header % 8 == 0 && header + 4 < page
    }
  }

  /** A buffer header.  The size fields of a free header are stale and never read. */
  datatype Buffer =
    | Free(addr: nat)
    | Used(addr: nat, data: nat, offsets: nat, extra: nat, async: bool)

  // --- pages ---------------------------------------------------------------

  function Page(g: Geometry, x: nat): nat
    requires g.page > 0
  {
    x / g.page
  }

  /** The first page that starts at or after `x`: PAGE_ALIGN, as an index. */
  function PageUp(g: Geometry, x: nat): nat
    requires g.page > 0
  {
    (x + g.page - 1) / g.page
  }

  lemma MulStep(a: nat, b: nat, p: nat)
    requires a < b
    ensures (a + 1) * p <= b * p
  {
  }

  lemma PageMono(g: Geometry, x: nat, y: nat)
    requires g.page > 0 && x <= y
    ensures Page(g, x) <= Page(g, y)
  {
    if Page(g, y) < Page(g, x) {
      MulStep(Page(g, y), Page(g, x), g.page);
    }
  }

  lemma PageUnique(g: Geometry, x: nat, q: nat)
    requires g.page > 0 && q * g.page <= x < (q + 1) * g.page
    ensures Page(g, x) == q
  {
    if Page(g, x) < q {
      MulStep(Page(g, x), q, g.page);
    } else if q < Page(g, x) {
      MulStep(q, Page(g, x), g.page);
    }
  }

  lemma PageStep(g: Geometry, x: nat)
    requires g.page > 0
    ensures Page(g, x + g.page) == Page(g, x) + 1
  {
    PageUnique(g, x + g.page, Page(g, x) + 1);
  }

  /** Positions at most a page apart are on the same or on adjacent pages. */
  lemma PageNear(g: Geometry, x: nat, y: nat)
    requires g.page > 0 && x <= y <= x + g.page
    ensures Page(g, x) <= Page(g, y) <= Page(g, x) + 1
  {
    PageMono(g, x, y);
    PageMono(g, y, x + g.page);
    PageStep(g, x);
  }

  lemma PageUpIsNext(g: Geometry, x: nat)
    requires g.page > 0 && x > 0
    ensures PageUp(g, x) == Page(g, x - 1) + 1
  {
    PageStep(g, x - 1);
  }

  /** Everything below a page boundary is on an earlier page. */
  lemma PageBelow(g: Geometry, x: nat, y: nat)
    requires g.page > 0 && x < y && y % g.page == 0
    ensures Page(g, x) < Page(g, y)
  {
    PageMono(g, x, y);
    assert y == Page(g, y) * g.page;
  }

  // --- the row of buffers --------------------------------------------------

  /** Where the data of buffer `i` ends: at the next header, or at the end of the region. */
  function End(row: seq<Buffer>, size: nat, i: nat): nat
    requires i < |row|
  {
    if i + 1 == |row| then size else row[i + 1].addr
  }

  /** Buffer `i` is aligned and has room for its header. */
  predicate Placed(g: Geometry, row: seq<Buffer>, size: nat, i: nat)
    requires i < |row|
  {
    row[i].addr % 8 == 0 && row[i].addr + g.header <= End(row, size, i)
  }

  /** The buffers cover `[0, size)` in address order. */
  predicate Tiled(g: Geometry, row: seq<Buffer>, size: nat) {
    && |row| >= 1 && row[0].addr == 0
    && (forall i {:trigger Placed(g, row, size, i)} :: 0 <= i < |row| ==> Placed(g, row, size, i))
  }

  /** binder_buffer_size: the room for data in buffer `i`. */
  function Room(g: Geometry, row: seq<Buffer>, size: nat, i: nat): nat
    requires i < |row|
  {
    if row[i].addr + g.header <= End(row, size, i) then End(row, size, i) - row[i].addr - g.header else 0
  }

  lemma {:induction false} Ordered(g: Geometry, row: seq<Buffer>, size: nat, i: nat, j: nat)
    requires Tiled(g, row, size) && i < j < |row|
    ensures row[i].addr + g.header <= End(row, size, i) <= row[j].addr < End(row, size, j) + 1 <= size + 1
    decreases j - i
  {
    assert Placed(g, row, size, i) && Placed(g, row, size, j);
    if i + 1 < j {
      Ordered(g, row, size, i, j - 1);
    }
    EndBounded(g, row, size, j);
  }

  lemma {:induction false} EndBounded(g: Geometry, row: seq<Buffer>, size: nat, i: nat)
    requires Tiled(g, row, size) && i < |row|
    ensures row[i].addr + g.header <= End(row, size, i) <= size
    decreases |row| - i
  {
    assert Placed(g, row, size, i);
    if i + 1 < |row| {
      EndBounded(g, row, size, i + 1);
    }
  }

  // --- the pages a row needs -----------------------------------------------

  /** The end of the part of buffer `i` that must be backed by pages. */
  function Extent(g: Geometry, row: seq<Buffer>, size: nat, i: nat): nat
    requires i < |row|
  {
    if row[i].Free? then row[i].addr + g.header else End(row, size, i)
  }

  /** Page `k` overlaps the header of buffer `i`, or its data if it is allocated. */
  predicate Touches(g: Geometry, row: seq<Buffer>, size: nat, i: nat, k: nat)
    requires g.page > 0 && i < |row|
  {
    Extent(g, row, size, i) > 0 && Page(g, row[i].addr) <= k <= Page(g, Extent(g, row, size, i) - 1)
  }

  predicate Needs(g: Geometry, row: seq<Buffer>, size: nat, k: nat)
    requires g.page > 0
  {
    exists i {:trigger Touches(g, row, size, i, k)} :: 0 <= i < |row| && Touches(g, row, size, i, k)
  }

  /** What buffers before `i` need lies on pages up to that of the byte before `i`'s header. */
  lemma TouchesBefore(g: Geometry, row: seq<Buffer>, size: nat, i: nat, j: nat, k: nat)
    requires g.Valid() && Tiled(g, row, size) && j < i < |row| && Touches(g, row, size, j, k)
    ensures row[i].addr > 0 && k <= Page(g, row[i].addr - 1)
  {
    Ordered(g, row, size, j, i);
    PageMono(g, Extent(g, row, size, j) - 1, row[i].addr - 1);
  }

  /** What buffers after `i` need lies on pages from that of `i`'s end on. */
  lemma TouchesAfter(g: Geometry, row: seq<Buffer>, size: nat, i: nat, j: nat, k: nat)
    requires g.Valid() && Tiled(g, row, size) && i < j < |row| && Touches(g, row, size, j, k)
    ensures Page(g, End(row, size, i)) <= k
  {
    Ordered(g, row, size, i, j);
    PageMono(g, End(row, size, i), row[j].addr);
  }

  // --- changing the row ----------------------------------------------------

  /** Pages strictly after the header of buffer `i` and strictly before that of its end. */
  predicate Inside(g: Geometry, row: seq<Buffer>, size: nat, i: nat, k: nat)
    requires g.Valid() && i < |row|
  {
    Page(g, row[i].addr + g.header - 1) < k < Page(g, End(row, size, i))
  }

  /** A page inside buffer `i` is needed by no header and by no other buffer. */
  lemma InsideFree(g: Geometry, row: seq<Buffer>, size: nat, i: nat, k: nat)
    requires g.Valid() && Tiled(g, row, size) && i < |row| && row[i].Free?
    requires Inside(g, row, size, i, k)
    ensures !Needs(g, row, size, k)
  {
    forall j | 0 <= j < |row| ensures !Touches(g, row, size, j, k) {
      if Touches(g, row, size, j, k) {
        if j < i {
          TouchesBefore(g, row, size, i, j, k);
          PageMono(g, row[i].addr - 1, row[i].addr + g.header - 1);
        } else if i < j {
          TouchesAfter(g, row, size, i, j, k);
        }
      }
    }
  }

  /** The page on which a buffer ends inside a page is needed by the next header. */
  lemma EndPageNeeded(g: Geometry, row: seq<Buffer>, size: nat, i: nat)
    requires g.Valid() && Tiled(g, row, size) && size % g.page == 0 && i < |row|
    requires End(row, size, i) > 0 && Page(g, End(row, size, i) - 1) == Page(g, End(row, size, i))
    ensures i + 1 < |row| && Touches(g, row, size, i + 1, Page(g, End(row, size, i)))
  {
    if i + 1 == |row| {
      PageBelow(g, size - 1, size);
    }
    assert Placed(g, row, size, i + 1);
    PageMono(g, row[i + 1].addr, Extent(g, row, size, i + 1) - 1);
  }

  lemma RelabelTiled(g: Geometry, row: seq<Buffer>, size: nat, i: nat, b: Buffer)
    requires Tiled(g, row, size) && i < |row| && b.addr == row[i].addr
    ensures Tiled(g, row[i := b], size)
  {
    var row' := row[i := b];
    forall j | 0 <= j < |row'| ensures Placed(g, row', size, j) {
      assert Placed(g, row, size, j);
    }
  }

  /** Allocating a whole free buffer, or freeing one, changes the need exactly for the pages inside it. */
  lemma WholeBufferPages(g: Geometry, row: seq<Buffer>, size: nat, i: nat, b: Buffer, k: nat)
    requires g.Valid() && Tiled(g, row, size) && size % g.page == 0
    requires i < |row| && row[i].Free? && b.Used? && b.addr == row[i].addr
    ensures Needs(g, row[i := b], size, k) <==> Needs(g, row, size, k) || Inside(g, row, size, i, k)
  {
    var row' := row[i := b];
    assert Placed(g, row, size, i);
    if Needs(g, row, size, k) {
      var j :| 0 <= j < |row| && Touches(g, row, size, j, k);
      if j == i {
        PageMono(g, row[i].addr + g.header - 1, End(row, size, i) - 1);
      }
      assert Touches(g, row', size, j, k);
    }
    if Inside(g, row, size, i, k) {
      InsideTouched(g, row, size, i, k);
      assert Touches(g, row', size, i, k);
    }
    if Needs(g, row', size, k) && !Inside(g, row, size, i, k) {
      var j :| 0 <= j < |row'| && Touches(g, row', size, j, k);
      if j != i || k <= Page(g, row[i].addr + g.header - 1) {
        assert Touches(g, row, size, j, k);
      } else {
        PageMono(g, End(row, size, i) - 1, End(row, size, i));
        EndPageNeeded(g, row, size, i);
      }
    }
  }

  lemma InsideTouched(g: Geometry, row: seq<Buffer>, size: nat, i: nat, k: nat)
    requires g.Valid() && Tiled(g, row, size) && i < |row| && Inside(g, row, size, i, k)
    ensures Page(g, row[i].addr) <= k <= Page(g, End(row, size, i) - 1)
  {
    assert Placed(g, row, size, i);
    PageMono(g, row[i].addr, row[i].addr + g.header - 1);
    PageNear(g, End(row, size, i) - 1, End(row, size, i));
  }

  /** The row without buffer `j`, whose space goes to its predecessor. */
  function Drop(row: seq<Buffer>, j: nat): seq<Buffer>
    requires j < |row|
  {
    row[..j] + row[j + 1..]
  }

  /** The row with a free header at `a` cut off the space of buffer `i`. */
  function Cut(row: seq<Buffer>, i: nat, a: nat): seq<Buffer>
    requires i < |row|
  {
    row[..i + 1] + [Free(a)] + row[i + 1..]
  }

  predicate HeaderOn(g: Geometry, a: nat, k: nat)
    requires g.Valid()
  {
    Page(g, a) <= k <= Page(g, a + g.header - 1)
  }

  lemma DropTiled(g: Geometry, row: seq<Buffer>, size: nat, j: nat)
    requires Tiled(g, row, size) && 0 < j < |row|
    ensures Tiled(g, Drop(row, j), size)
  {
    var row' := Drop(row, j);
    forall i | 0 <= i < |row'| ensures Placed(g, row', size, i) {
      if i < j {
        assert Placed(g, row, size, i);
        if i == j - 1 {
          assert Placed(g, row, size, j);
        }
      } else {
        assert Placed(g, row, size, i + 1);
      }
    }
  }

  /** Merging a free buffer into a free predecessor gives up the need of its header and nothing else. */
  lemma DropPages(g: Geometry, row: seq<Buffer>, size: nat, j: nat, k: nat)
    requires g.Valid() && Tiled(g, row, size)
    requires 0 < j < |row| && row[j].Free? && row[j - 1].Free?
    ensures Needs(g, row, size, k) <==> Needs(g, Drop(row, j), size, k) || HeaderOn(g, row[j].addr, k)
  {
    var row' := Drop(row, j);
    if Needs(g, row, size, k) {
      var i :| 0 <= i < |row| && Touches(g, row, size, i, k);
      if i != j {
        assert Touches(g, row', size, if i < j then i else i - 1, k);
      }
    }
    if Needs(g, row', size, k) {
      var i :| 0 <= i < |row'| && Touches(g, row', size, i, k);
      assert Touches(g, row, size, if i < j then i else i + 1, k);
    }
    if HeaderOn(g, row[j].addr, k) {
      assert Touches(g, row, size, j, k);
    }
  }

  /** Once the header of `j` is gone, its pages are needed only if a neighbouring header shares them. */
  lemma SharedPages(g: Geometry, row: seq<Buffer>, size: nat, j: nat, k: nat)
    requires g.Valid() && Tiled(g, row, size)
    requires 0 < j < |row| && row[j].Free? && row[j - 1].Free?
    requires HeaderOn(g, row[j].addr, k)
    ensures Needs(g, Drop(row, j), size, k) <==>
              || k == Page(g, row[j - 1].addr + g.header - 1)
              || (j + 1 < |row| && k == Page(g, row[j + 1].addr))
  {
    var row' := Drop(row, j);
    DropTiled(g, row, size, j);
    assert Placed(g, row, size, j - 1) && Placed(g, row, size, j);
    PageMono(g, row[j - 1].addr + g.header - 1, row[j].addr);
    if Needs(g, row', size, k) {
      var i :| 0 <= i < |row'| && Touches(g, row', size, i, k);
      if i < j - 1 {
        TouchesBefore(g, row', size, j - 1, i, k);
        PageMono(g, row[j - 1].addr - 1, row[j - 1].addr + g.header - 1);
      } else if i > j - 1 {
        TouchesAfter(g, row', size, j - 1, i, k);
        PageMono(g, row[j].addr + g.header - 1, row[j + 1].addr);
      }
    }
    if k == Page(g, row[j - 1].addr + g.header - 1) {
      PageMono(g, row[j - 1].addr, row[j - 1].addr + g.header - 1);
      assert Touches(g, row', size, j - 1, k);
    }
    if j + 1 < |row| && k == Page(g, row[j + 1].addr) {
      assert Placed(g, row, size, j + 1);
      PageMono(g, row[j + 1].addr, Extent(g, row', size, j) - 1);
      assert Touches(g, row', size, j, k);
    }
  }

  // --- allocating ----------------------------------------------------------

  /** What is left of a buffer with `room` bytes is too small for another buffer. */
  predicate NoRemainder(g: Geometry, room: nat, need: nat) {
    need + g.header + 4 >= room
  }

  /** Where what is left after allocating `need` bytes of buffer `i` starts, if it becomes a buffer. */
  function Remainder(g: Geometry, row: seq<Buffer>, size: nat, i: nat, need: nat): Option<nat>
    requires i < |row|
  {
    if NoRemainder(g, Room(g, row, size, i), need) then None else Some(row[i].addr + g.header + need)
  }

  /** Relabelling buffer `i` and cutting the remainder off it. */
  function Taken(row: seq<Buffer>, i: nat, b: Buffer, rest: Option<nat>): seq<Buffer>
    requires i < |row|
  {
    if rest == None then row[i := b] else Cut(row[i := b], i, rest.value)
  }

  /** The row after allocating `need` bytes from free buffer `i`, described by `b`. */
  function Allocated(g: Geometry, row: seq<Buffer>, size: nat, i: nat, need: nat, b: Buffer): seq<Buffer>
    requires i < |row|
  {
    Taken(row, i, b, Remainder(g, row, size, i, need))
  }

  lemma CutAfterTake(row: seq<Buffer>, i: nat, b: Buffer, a: nat)
    requires i < |row|
    ensures Cut(row[i := b], i, a) == Cut(row, i, a)[i := b]
  {
  }

  lemma CutTiled(g: Geometry, row: seq<Buffer>, size: nat, i: nat, a: nat)
    requires g.Valid() && Tiled(g, row, size) && i < |row|
    requires a % 8 == 0 && row[i].addr + g.header <= a && a + g.header <= End(row, size, i)
    ensures Tiled(g, Cut(row, i, a), size) && Drop(Cut(row, i, a), i + 1) == row
  {
    var row' := Cut(row, i, a);
    forall j | 0 <= j < |row'| ensures Placed(g, row', size, j) {
      if j <= i {
        assert Placed(g, row, size, j);
      } else if j > i + 1 {
        assert Placed(g, row, size, j - 1);
      }
    }
  }

  /** The page just after the last one that allocating `need` bytes of buffer `i` maps. */
  function MapEnd(g: Geometry, row: seq<Buffer>, size: nat, i: nat, need: nat): nat
    requires g.Valid() && i < |row|
  {
    var used := if NoRemainder(g, Room(g, row, size, i), need) then need else need + g.header;
    var end := PageUp(g, row[i].addr + g.header + used);
    var has := Page(g, End(row, size, i));
    if end > has then has else end
  }

  /** The pages the allocator maps for buffer `i`. */
  predicate Mapped(g: Geometry, row: seq<Buffer>, size: nat, i: nat, need: nat, k: nat)
    requires g.Valid() && i < |row|
  {
    PageUp(g, row[i].addr + g.header) <= k < MapEnd(g, row, size, i, need)
  }

  /** Without a remainder the allocator maps everything inside the buffer. */
  lemma MapsWhole(g: Geometry, row: seq<Buffer>, size: nat, i: nat, need: nat, k: nat)
    requires g.Valid() && Tiled(g, row, size) && i < |row| && Placed(g, row, size, i)
    requires need <= Room(g, row, size, i) && NoRemainder(g, Room(g, row, size, i), need)
    ensures Mapped(g, row, size, i, need, k) <==> Inside(g, row, size, i, k)
  {
    var d := row[i].addr + g.header;
    PageUpIsNext(g, d);
    PageUpIsNext(g, d + need);
    PageNear(g, d + need - 1, End(row, size, i));
  }

  lemma CutFits(g: Geometry, row: seq<Buffer>, size: nat, i: nat, need: nat)
    requires g.Valid() && Tiled(g, row, size) && i < |row| && Placed(g, row, size, i)
    requires need % 8 == 0 && need <= Room(g, row, size, i) && !NoRemainder(g, Room(g, row, size, i), need)
    ensures var cut := Cut(row, i, row[i].addr + g.header + need);
            Tiled(g, cut, size) && Drop(cut, i + 1) == row
  {
    CutTiled(g, row, size, i, row[i].addr + g.header + need);
  }

  lemma AllocatedTiled(g: Geometry, row: seq<Buffer>, size: nat, i: nat, need: nat, b: Buffer)
    requires g.Valid() && Tiled(g, row, size)
    requires i < |row| && row[i].Free? && b.Used? && b.addr == row[i].addr && Placed(g, row, size, i)
    requires need % 8 == 0 && need <= Room(g, row, size, i)
    ensures Tiled(g, Allocated(g, row, size, i, need, b), size)
  {
    if NoRemainder(g, Room(g, row, size, i), need) {
      RelabelTiled(g, row, size, i, b);
    } else {
      CutFits(g, row, size, i, need);
      CutAfterTake(row, i, b, row[i].addr + g.header + need);
      RelabelTiled(g, Cut(row, i, row[i].addr + g.header + need), size, i, b);
    }
  }

  /** The pages mapped by an allocation are exactly the ones that become needed, and none was needed before. */
  lemma AllocatedPages(g: Geometry, row: seq<Buffer>, size: nat, i: nat, need: nat, b: Buffer, k: nat)
    requires g.Valid() && Tiled(g, row, size) && size % g.page == 0
    requires i < |row| && row[i].Free? && b.Used? && b.addr == row[i].addr && Placed(g, row, size, i)
    requires need % 8 == 0 && need <= Room(g, row, size, i)
    ensures Mapped(g, row, size, i, need, k) ==> !Needs(g, row, size, k)
    ensures Needs(g, Allocated(g, row, size, i, need, b), size, k) <==>
              Needs(g, row, size, k) || Mapped(g, row, size, i, need, k)
  {
    MappedUnneeded(g, row, size, i, need, k);
    if NoRemainder(g, Room(g, row, size, i), need) {
      MapsWhole(g, row, size, i, need, k);
      WholeBufferPages(g, row, size, i, b, k);
    } else {
      CutFits(g, row, size, i, need);
      CutPages(g, row, size, i, need, b, k);
      MapsCut(g, row, size, i, need, k);
    }
  }

  lemma MappedUnneeded(g: Geometry, row: seq<Buffer>, size: nat, i: nat, need: nat, k: nat)
    requires g.Valid() && Tiled(g, row, size) && i < |row| && row[i].Free? && Placed(g, row, size, i)
    ensures Mapped(g, row, size, i, need, k) ==> !Needs(g, row, size, k)
  {
    PageUpIsNext(g, row[i].addr + g.header);
    if Mapped(g, row, size, i, need, k) {
      InsideFree(g, row, size, i, k);
    }
  }

  lemma CutPages(g: Geometry, row: seq<Buffer>, size: nat, i: nat, need: nat, b: Buffer, k: nat)
    requires g.Valid() && size % g.page == 0
    requires i < |row| && row[i].Free? && b.Used? && b.addr == row[i].addr
    requires var cut := Cut(row, i, row[i].addr + g.header + need); Tiled(g, cut, size) && Drop(cut, i + 1) == row
    ensures var d := row[i].addr + g.header;
            Needs(g, Cut(row[i := b], i, d + need), size, k) <==>
            Needs(g, row, size, k) || HeaderOn(g, d + need, k) || Page(g, d - 1) < k < Page(g, d + need)
  {
    var cut := Cut(row, i, row[i].addr + g.header + need);
    CutAfterTake(row, i, b, row[i].addr + g.header + need);
    DropPages(g, cut, size, i + 1, k);
    WholeBufferPages(g, cut, size, i, b, k);
  }

  /** With a remainder the allocator maps the pages inside the cut-off buffer and those of the new header. */
  lemma MapsCut(g: Geometry, row: seq<Buffer>, size: nat, i: nat, need: nat, k: nat)
    requires g.Valid() && Tiled(g, row, size) && size % g.page == 0
    requires i < |row| && row[i].Free? && Placed(g, row, size, i)
    requires need <= Room(g, row, size, i) && !NoRemainder(g, Room(g, row, size, i), need)
    ensures var d := row[i].addr + g.header;
            Needs(g, row, size, k) || Mapped(g, row, size, i, need, k) <==>
            Needs(g, row, size, k) || HeaderOn(g, d + need, k) || Page(g, d - 1) < k < Page(g, d + need)
  {
    var d := row[i].addr + g.header;
    var a := d + need;
    PageUpIsNext(g, d);
    PageUpIsNext(g, a + g.header);
    PageMono(g, d - 1, a);
    PageMono(g, a, a + g.header - 1);
    PageMono(g, a + g.header - 1, End(row, size, i) - 1);
    PageMono(g, End(row, size, i) - 1, End(row, size, i));
    if HeaderOn(g, a, k) && !Mapped(g, row, size, i, need, k) {
      if k <= Page(g, d - 1) {
        PageMono(g, row[i].addr, d - 1);
        assert Touches(g, row, size, i, k);
      } else {
        EndPageNeeded(g, row, size, i);
      }
    }
  }
}
