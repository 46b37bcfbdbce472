/** The two search trees of the allocator, and what changes of the row do to them. */
module BufferIndex {
  import opened Wrappers
  import opened BufferLayout
  import opened BufferRow
  import opened SearchTree

  // --- what row changes do to the address sets and sizes --------------------

  predicate Indexed(g: Geometry, row: seq<Buffer>, size: nat, free: Tree, used: Tree)
  {
    && Sorted(free, Rooms(g, row, size)) && Elems(free) == FreeAddrs(row)
    && Sorted(used, Same(row)) && Elems(used) == UsedAddrs(row)
  }

  /** An allocated buffer has room for what it was allocated for, and not enough left for another buffer. */
  predicate Roomy(g: Geometry, row: seq<Buffer>, size: nat, i: nat)
    requires i < |row|
  {
    row[i].Used? ==>
      && row[i].data < WORDS && row[i].offsets < WORDS && row[i].extra < WORDS
      && row[i].addr + g.header + TrueSize(row[i].data, row[i].offsets, row[i].extra) <= End(row, size, i)
      && NoRemainder(g, Room(g, row, size, i), TrueSize(row[i].data, row[i].offsets, row[i].extra))
  }

  predicate AllRoomy(g: Geometry, row: seq<Buffer>, size: nat) {
    forall i {:trigger Roomy(g, row, size, i)} :: 0 <= i < |row| ==> Roomy(g, row, size, i)
  }

  lemma DistinctAddrs(g: Geometry, row: seq<Buffer>, size: nat)
    requires g.Valid() && Tiled(g, row, size)
    ensures forall i, j :: 0 <= i < j < |row| ==> row[i].addr != row[j].addr
  {
    forall i, j | 0 <= i < j < |row| ensures row[i].addr != row[j].addr {
      Ordered(g, row, size, i, j);
    }
  }

  lemma InRow(row: seq<Buffer>, i: nat)
    requires i < |row|
    ensures row[i].addr in Addrs(row)
    ensures row[i].Free? ==> row[i].addr in FreeAddrs(row)
    ensures row[i].Used? ==> row[i].addr in UsedAddrs(row)
  {
    assert row[i] in row;
  }

  lemma RelabelAddrs(g: Geometry, row: seq<Buffer>, size: nat, i: nat, b: Buffer)
    requires g.Valid() && Tiled(g, row, size) && i < |row| && b.addr == row[i].addr && Tiled(g, row[i := b], size)
    ensures Addrs(row[i := b]) == Addrs(row) && Rooms(g, row[i := b], size) == Rooms(g, row, size)
    ensures FreeAddrs(row[i := b]) == if b.Free? then FreeAddrs(row) + {b.addr} else FreeAddrs(row) - {b.addr}
    ensures UsedAddrs(row[i := b]) == if b.Used? then UsedAddrs(row) + {b.addr} else UsedAddrs(row) - {b.addr}
  {
    var row' := row[i := b];
    DistinctAddrs(g, row, size);
    forall x | x in row ensures x == row[i] || (x in row' && x.addr != b.addr) {
      var j :| 0 <= j < |row| && row[j] == x;
      assert j != i ==> row'[j] == x;
    }
    forall x | x in row' ensures x == b || (x in row && x.addr != b.addr) {
      var j :| 0 <= j < |row'| && row'[j] == x;
      assert j != i ==> row[j] == x;
    }
    assert row'[i] == b && row[i] in row;
    RoomsRelabel(g, row, size, i, b);
  }

  lemma RoomsRelabel(g: Geometry, row: seq<Buffer>, size: nat, i: nat, b: Buffer)
    requires g.Valid() && Tiled(g, row, size) && i < |row| && b.addr == row[i].addr && Tiled(g, row[i := b], size)
    requires Addrs(row[i := b]) == Addrs(row)
    ensures Rooms(g, row[i := b], size) == Rooms(g, row, size)
  {
    var row' := row[i := b];
    forall a | a in Addrs(row) ensures Rooms(g, row', size)[a] == Rooms(g, row, size)[a] {
      var j := IndexOf(row, a);
      RoomsAt(g, row, size, j);
      RoomsAt(g, row', size, j);
    }
  }

  lemma DropAddrs(g: Geometry, row: seq<Buffer>, size: nat, j: nat)
    requires g.Valid() && Tiled(g, row, size) && 0 < j < |row| && Tiled(g, Drop(row, j), size)
    ensures Addrs(Drop(row, j)) == Addrs(row) - {row[j].addr}
    ensures FreeAddrs(Drop(row, j)) == FreeAddrs(row) - {row[j].addr}
    ensures UsedAddrs(Drop(row, j)) == UsedAddrs(row) - {row[j].addr}
  {
    var row' := Drop(row, j);
    DistinctAddrs(g, row, size);
    forall x | x in row ensures x == row[j] || (x in row' && x.addr != row[j].addr) {
      var i :| 0 <= i < |row| && row[i] == x;
      assert i < j ==> row'[i] == x;
      assert i > j ==> row'[i - 1] == x;
    }
    forall x | x in row' ensures x in row && x.addr != row[j].addr {
      var i :| 0 <= i < |row'| && row'[i] == x;
      assert row[if i < j then i else i + 1] == x;
    }
  }

  /** Dropping buffer `j` changes the recomputed size of its predecessor only. */
  lemma DropRooms(g: Geometry, row: seq<Buffer>, size: nat, j: nat, a: nat)
    requires g.Valid() && Tiled(g, row, size) && 0 < j < |row| && Tiled(g, Drop(row, j), size)
    requires a in Addrs(row) && a != row[j].addr && a != row[j - 1].addr
    ensures a in Addrs(Drop(row, j)) && Rooms(g, Drop(row, j), size)[a] == Rooms(g, row, size)[a]
  {
    DropAddrs(g, row, size, j);
    var i, row' := IndexOf(row, a), Drop(row, j);
    RoomsAt(g, row, size, i);
    if i < j {
      assert i + 1 < j && row'[i] == row[i] && row'[i + 1] == row[i + 1];
      assert End(row', size, i) == End(row, size, i);
      RoomsAt(g, row', size, i);
    } else {
      assert row'[i - 1] == row[i] && End(row', size, i - 1) == End(row, size, i);
      RoomsAt(g, row', size, i - 1);
    }
  }

  lemma SameSorted(t: Tree, row: seq<Buffer>, row': seq<Buffer>)
    requires Sorted(t, Same(row)) && Elems(t) <= Addrs(row')
    ensures Sorted(t, Same(row'))
  {
    SortedWithin(t, Same(row));
    SortedAgrees(t, Same(row), Same(row'));
  }

  lemma {:induction false} SortedWithin(t: Tree, keys: Keys)
    requires Sorted(t, keys)
    ensures Elems(t) <= keys.Keys
  {
  }

  // --- what allocating and freeing do to the trees --------------------------

  lemma TakeIndexed(g: Geometry, row: seq<Buffer>, size: nat, free: Tree, used: Tree, i: nat, b: Buffer)
    requires g.Valid() && Tiled(g, row, size) && Indexed(g, row, size, free, used)
    requires i < |row| && row[i].Free? && b.Used? && b.addr == row[i].addr && Tiled(g, row[i := b], size)
    ensures b.addr in Addrs(row[i := b]) && Elems(used) <= Addrs(row[i := b]) && b.addr !in Elems(used)
    ensures Indexed(g, row[i := b], size, Erase(free, b.addr), Insert(used, b.addr, Same(row[i := b])))
  {
    var row', a := row[i := b], b.addr;
    RelabelAddrs(g, row, size, i, b);
    InRow(row', i);
    NotBoth(g, row, size, i);
    SortedWithin(free, Rooms(g, row, size));
    EraseElems(free, a, Rooms(g, row, size));
    EraseSorted(free, a, Rooms(g, row, size), Rooms(g, row', size));
    SortedWithin(used, Same(row));
    SameSorted(used, row, row');
    InsertSorted(used, a, Same(row'));
  }

  /** The address of a free buffer is not that of an allocated one, and the other way round. */
  lemma NotBoth(g: Geometry, row: seq<Buffer>, size: nat, i: nat)
    requires g.Valid() && Tiled(g, row, size) && i < |row|
    ensures row[i].Free? ==> row[i].addr !in UsedAddrs(row)
    ensures row[i].Used? ==> row[i].addr !in FreeAddrs(row)
  {
    DistinctAddrs(g, row, size);
    forall b | b in row && b.addr == row[i].addr ensures b == row[i] {
      var j :| 0 <= j < |row| && row[j] == b;
    }
  }

  lemma CutAddrs(g: Geometry, row: seq<Buffer>, size: nat, i: nat, a: nat)
    requires g.Valid() && i < |row| && row[i].Used? && Tiled(g, row, size) && Tiled(g, Cut(row, i, a), size)
    ensures var row' := Cut(row, i, a);
            && Drop(row', i + 1) == row && row'[i] == row[i] && row'[i + 1] == Free(a)
            && FreeAddrs(row') == FreeAddrs(row) + {a} && a !in Addrs(row)
            && UsedAddrs(row') == UsedAddrs(row) && Addrs(row') == Addrs(row) + {a}
            && row[i].addr !in FreeAddrs(row)
  {
    var row' := Cut(row, i, a);
    assert Drop(row', i + 1) == row;
    DropAddrs(g, row', size, i + 1);
    InRow(row', i + 1);
    NotBoth(g, row, size, i);
    NotBoth(g, row', size, i + 1);
  }

  /** Dropping buffer `j` keeps the keys of a tree without `j` and its predecessor. */
  lemma DropKeys(g: Geometry, row: seq<Buffer>, size: nat, j: nat, xs: set<nat>)
    requires g.Valid() && Tiled(g, row, size) && 0 < j < |row| && Tiled(g, Drop(row, j), size)
    requires xs <= Addrs(row) && row[j].addr !in xs && row[j - 1].addr !in xs
    ensures forall x :: x in xs ==>
              && x in Rooms(g, row, size) && x in Rooms(g, Drop(row, j), size)
              && Rooms(g, Drop(row, j), size)[x] == Rooms(g, row, size)[x]
  {
    forall x | x in xs
      ensures x in Rooms(g, Drop(row, j), size) && Rooms(g, Drop(row, j), size)[x] == Rooms(g, row, size)[x]
    {
      DropRooms(g, row, size, j, x);
    }
  }

  lemma CutKeys(g: Geometry, row: seq<Buffer>, row': seq<Buffer>, size: nat, i: nat, xs: set<nat>)
    requires g.Valid() && Tiled(g, row, size) && Tiled(g, row', size)
    requires i + 1 < |row'| && row == Drop(row', i + 1)
    requires xs <= Addrs(row') && row'[i].addr !in xs && row'[i + 1].addr !in xs
    ensures forall x :: x in xs ==>
              x in Rooms(g, row, size) && x in Rooms(g, row', size) && Rooms(g, row', size)[x] == Rooms(g, row, size)[x]
  {
    DropKeys(g, row', size, i + 1, xs);
  }

  lemma CutFree(g: Geometry, row: seq<Buffer>, size: nat, free: Tree, i: nat, a: nat)
    requires g.Valid() && Tiled(g, row, size) && Sorted(free, Rooms(g, row, size)) && Elems(free) == FreeAddrs(row)
    requires i < |row| && row[i].Used? && Tiled(g, Cut(row, i, a), size)
    ensures var row' := Cut(row, i, a);
            Sorted(free, Rooms(g, row', size)) && a !in Elems(free) && Elems(free) <= Addrs(row)
  {
    var row' := Cut(row, i, a);
    CutAddrs(g, row, size, i, a);
    SortedWithin(free, Rooms(g, row, size));
    CutKeys(g, row, row', size, i, Elems(free));
    SortedAgrees(free, Rooms(g, row, size), Rooms(g, row', size));
  }

  lemma CutIndexed(g: Geometry, row: seq<Buffer>, size: nat, free: Tree, used: Tree, i: nat, a: nat)
    requires g.Valid() && Tiled(g, row, size) && Indexed(g, row, size, free, used)
    requires i < |row| && row[i].Used? && Tiled(g, Cut(row, i, a), size)
    ensures var row' := Cut(row, i, a);
            && a in Addrs(row') && Elems(free) <= Addrs(row')
            && Indexed(g, row', size, Insert(free, a, Rooms(g, row', size)), used)
  {
    var row' := Cut(row, i, a);
    CutFree(g, row, size, free, i, a);
    CutAddrs(g, row, size, i, a);
    InsertSorted(free, a, Rooms(g, row', size));
    SortedWithin(used, Same(row));
    SameSorted(used, row, row');
  }

  /** The trees while the free buffer at `a` is in neither of them. */
  predicate IndexedBut(g: Geometry, row: seq<Buffer>, size: nat, free: Tree, used: Tree, a: nat)
  {
    && Sorted(free, Rooms(g, row, size)) && Elems(free) == FreeAddrs(row) - {a} && a in FreeAddrs(row)
    && Sorted(used, Same(row)) && Elems(used) == UsedAddrs(row)
  }

  lemma ReleaseIndexed(g: Geometry, row: seq<Buffer>, size: nat, free: Tree, used: Tree, i: nat)
    requires g.Valid() && Tiled(g, row, size) && Indexed(g, row, size, free, used)
    requires i < |row| && row[i].Used? && Tiled(g, row[i := Free(row[i].addr)], size)
    ensures IndexedBut(g, row[i := Free(row[i].addr)], size, free, Erase(used, row[i].addr), row[i].addr)
  {
    var a := row[i].addr;
    var row' := row[i := Free(a)];
    RelabelAddrs(g, row, size, i, Free(a));
    NotBoth(g, row, size, i);
    SortedWithin(used, Same(row));
    EraseElems(used, a, Same(row));
    EraseSorted(used, a, Same(row), Same(row'));
  }

  lemma UsedDrop(g: Geometry, row: seq<Buffer>, size: nat, used: Tree, j: nat)
    requires g.Valid() && Tiled(g, row, size) && 0 < j < |row| && row[j].Free? && Tiled(g, Drop(row, j), size)
    requires Sorted(used, Same(row)) && Elems(used) == UsedAddrs(row)
    ensures Sorted(used, Same(Drop(row, j))) && Elems(used) == UsedAddrs(Drop(row, j))
  {
    DropAddrs(g, row, size, j);
    NotBoth(g, row, size, j);
    SortedWithin(used, Same(row));
    SameSorted(used, row, Drop(row, j));
  }

  /** Merging the free buffer `j` into the free buffer before it, which is in no tree. */
  lemma AbsorbNext(g: Geometry, row: seq<Buffer>, size: nat, free: Tree, used: Tree, j: nat)
    requires g.Valid() && Tiled(g, row, size) && 0 < j < |row| && Tiled(g, Drop(row, j), size)
    requires row[j].Free? && row[j - 1].Free? && IndexedBut(g, row, size, free, used, row[j - 1].addr)
    ensures IndexedBut(g, Drop(row, j), size, Erase(free, row[j].addr), used, row[j - 1].addr)
  {
    var row', a, n := Drop(row, j), row[j - 1].addr, row[j].addr;
    assert Elems(Erase(free, n)) == FreeAddrs(row') - {a} && a in FreeAddrs(row') by {
      DropAddrs(g, row, size, j);
      InRow(row', j - 1);
      EraseElems(free, n, Rooms(g, row, size));
    }
    assert Sorted(Erase(free, n), Rooms(g, row', size)) by {
      SortedWithin(free, Rooms(g, row, size));
      DropKeys(g, row, size, j, Elems(free) - {n});
      EraseSorted(free, n, Rooms(g, row, size), Rooms(g, row', size));
    }
    UsedDrop(g, row, size, used, j);
  }

  /**
   Merging the free buffer `j`, which is in no tree, into the free buffer before
   it.  The merge changes the key of that buffer while it is still in the tree;
   erasing it afterwards puts the tree in order again.
   */
  lemma AbsorbInto(g: Geometry, row: seq<Buffer>, size: nat, free: Tree, used: Tree, j: nat)
    requires g.Valid() && Tiled(g, row, size) && 0 < j < |row| && Tiled(g, Drop(row, j), size)
    requires row[j].Free? && row[j - 1].Free? && IndexedBut(g, row, size, free, used, row[j].addr)
    ensures IndexedBut(g, Drop(row, j), size, Erase(free, row[j - 1].addr), used, row[j - 1].addr)
  {
    var row', p := Drop(row, j), row[j - 1].addr;
    assert Elems(Erase(free, p)) == FreeAddrs(row') - {p} && p in FreeAddrs(row') by {
      DropAddrs(g, row, size, j);
      InRow(row', j - 1);
      EraseElems(free, p, Rooms(g, row, size));
    }
    assert Sorted(Erase(free, p), Rooms(g, row', size)) by {
      SortedWithin(free, Rooms(g, row, size));
      DropKeys(g, row, size, j, Elems(free) - {p});
      EraseSorted(free, p, Rooms(g, row, size), Rooms(g, row', size));
    }
    UsedDrop(g, row, size, used, j);
  }

  lemma ReturnIndexed(g: Geometry, row: seq<Buffer>, size: nat, free: Tree, used: Tree, a: nat)
    requires g.Valid() && Tiled(g, row, size) && IndexedBut(g, row, size, free, used, a)
    ensures a in Rooms(g, row, size) && Elems(free) <= Rooms(g, row, size).Keys
    ensures Indexed(g, row, size, Insert(free, a, Rooms(g, row, size)), used)
  {
    var keys := Rooms(g, row, size);
    SortedWithin(free, keys);
    assert FreeAddrs(row) <= Addrs(row) == keys.Keys;
    assert a in FreeAddrs(row);
    InsertSorted(free, a, keys);
    assert Elems(Insert(free, a, keys)) == FreeAddrs(row);
  }

  // --- room ----------------------------------------------------------------

  lemma AllocatedRoomy(g: Geometry, row: seq<Buffer>, size: nat, i: nat, need: nat, b: Buffer)
    requires g.Valid() && Tiled(g, row, size) && AllRoomy(g, row, size)
    requires i < |row| && row[i].Free? && b.Used? && b.addr == row[i].addr && Placed(g, row, size, i)
    requires need == TrueSize(b.data, b.offsets, b.extra) && need <= Room(g, row, size, i)
    requires b.data < WORDS && b.offsets < WORDS && b.extra < WORDS
    ensures AllRoomy(g, Allocated(g, row, size, i, need, b), size)
  {
    var row' := Allocated(g, row, size, i, need, b);
    forall j | 0 <= j < |row'| ensures Roomy(g, row', size, j) {
      if j < i {
        AllocatedHead(g, row, size, i, need, b, j);
      } else if j > i {
        AllocatedTail(g, row, size, i, need, b, j);
      } else {
        AllocatedSelf(g, row, size, i, need, b);
      }
    }
  }

  lemma AllocatedHead(g: Geometry, row: seq<Buffer>, size: nat, i: nat, need: nat, b: Buffer, j: nat)
    requires i < |row| && Placed(g, row, size, i) && AllRoomy(g, row, size) && b.addr == row[i].addr && j < i
    ensures Roomy(g, Allocated(g, row, size, i, need, b), size, j)
  {
    assert Roomy(g, row, size, j);
  }

  lemma AllocatedSelf(g: Geometry, row: seq<Buffer>, size: nat, i: nat, need: nat, b: Buffer)
    requires i < |row| && Placed(g, row, size, i) && b.addr == row[i].addr && b.Used?
    requires need == TrueSize(b.data, b.offsets, b.extra) && need <= Room(g, row, size, i)
    requires b.data < WORDS && b.offsets < WORDS && b.extra < WORDS
    ensures Roomy(g, Allocated(g, row, size, i, need, b), size, i)
  {
  }

  lemma AllocatedTail(g: Geometry, row: seq<Buffer>, size: nat, i: nat, need: nat, b: Buffer, j: nat)
    requires i < |row| && Placed(g, row, size, i) && AllRoomy(g, row, size)
    requires i < j < |Allocated(g, row, size, i, need, b)|
    ensures Roomy(g, Allocated(g, row, size, i, need, b), size, j)
  {
    var row' := Allocated(g, row, size, i, need, b);
    if |row'| == |row| {
      RoomyMoves(g, row, row', size, j, j);
    } else if j > i + 1 {
      RoomyMoves(g, row, row', size, j - 1, j);
    }
  }

  lemma RoomyMoves(g: Geometry, row: seq<Buffer>, row': seq<Buffer>, size: nat, i: nat, j: nat)
    requires i < |row| && j < |row'| && AllRoomy(g, row, size)
    requires row'[j] == row[i] && End(row', size, j) == End(row, size, i)
    ensures Roomy(g, row', size, j)
  {
    assert Roomy(g, row, size, i);
  }

  lemma FreedRoomy(g: Geometry, row: seq<Buffer>, size: nat, i: nat)
    requires AllRoomy(g, row, size) && i < |row|
    ensures AllRoomy(g, row[i := Free(row[i].addr)], size)
  {
    var row' := row[i := Free(row[i].addr)];
    forall j | 0 <= j < |row'| ensures Roomy(g, row', size, j) {
      assert Roomy(g, row, size, j);
    }
  }

  lemma DropRoomy(g: Geometry, row: seq<Buffer>, size: nat, j: nat)
    requires AllRoomy(g, row, size) && 0 < j < |row| && row[j - 1].Free?
    ensures AllRoomy(g, Drop(row, j), size)
  {
    var row' := Drop(row, j);
    forall i | 0 <= i < |row'| ensures Roomy(g, row', size, i) {
      assert Roomy(g, row, size, if i < j then i else i + 1);
    }
  }

  /** What holds of the row alone. */
  predicate RowOk(g: Geometry, row: seq<Buffer>, size: nat) {
    Tiled(g, row, size) && Coalesced(row) && AllRoomy(g, row, size)
  }

  /** `b` describes an allocation of `need` bytes that fits free buffer `i`. */
  predicate Fits(g: Geometry, row: seq<Buffer>, size: nat, i: nat, need: nat, b: Buffer) {
    && i < |row| && row[i].Free? && b.Used? && b.addr == row[i].addr && Placed(g, row, size, i)
    && need == TrueSize(b.data, b.offsets, b.extra) && need % 8 == 0 && need <= Room(g, row, size, i)
    && b.data < WORDS && b.offsets < WORDS && b.extra < WORDS
  }

  lemma AllocatedOk(g: Geometry, row: seq<Buffer>, size: nat, i: nat, need: nat, b: Buffer)
    requires g.Valid() && RowOk(g, row, size) && Fits(g, row, size, i, need, b)
    ensures RowOk(g, Allocated(g, row, size, i, need, b), size)
  {
    AllocatedTiled(g, row, size, i, need, b);
    TakenCoalesced(row, i, b, Remainder(g, row, size, i, need));
    AllocatedRoomy(g, row, size, i, need, b);
  }

  /** The free tree after an allocation: the buffer leaves, its remainder enters. */
  function FreeTreeAfter(g: Geometry, row: seq<Buffer>, size: nat, free: Tree, a: nat, rest: Option<nat>): Tree {
    if rest == None then Erase(free, a) else Insert(Erase(free, a), rest.value, Rooms(g, row, size))
  }

  lemma TakenIndexed(g: Geometry, row: seq<Buffer>, size: nat, free: Tree, used: Tree, i: nat, b: Buffer, rest: Option<nat>)
    requires g.Valid() && Tiled(g, row, size) && Indexed(g, row, size, free, used)
    requires i < |row| && row[i].Free? && b.Used? && b.addr == row[i].addr
    requires Tiled(g, row[i := b], size) && Tiled(g, Taken(row, i, b, rest), size)
    ensures var row' := Taken(row, i, b, rest);
            Indexed(g, row', size, FreeTreeAfter(g, row', size, free, b.addr, rest), Insert(used, b.addr, Same(row[i := b])))
  {
    var row1 := row[i := b];
    TakeIndexed(g, row, size, free, used, i, b);
    if rest.Some? {
      CutIndexed(g, row1, size, Erase(free, b.addr), Insert(used, b.addr, Same(row1)), i, rest.value);
    }
  }

  lemma FreedOk(g: Geometry, row: seq<Buffer>, size: nat, i: nat)
    requires g.Valid() && RowOk(g, row, size) && i < |row| && row[i].Used?
    ensures RowOk(g, Freed(row, i), size)
  {
    var freed := row[i := Free(row[i].addr)];
    RelabelTiled(g, row, size, i, Free(row[i].addr));
    FreedRoomy(g, row, size, i);
    MergedOk(g, freed, size, i);
    FreedCoalesced(row, i);
  }

  lemma MergedOk(g: Geometry, row: seq<Buffer>, size: nat, i: nat)
    requires g.Valid() && Tiled(g, row, size) && AllRoomy(g, row, size) && i < |row| && row[i].Free?
    ensures Tiled(g, Merged(row, i), size) && AllRoomy(g, Merged(row, i), size)
  {
    var right := if i + 1 < |row| && row[i + 1].Free? then Drop(row, i + 1) else row;
    if i + 1 < |row| && row[i + 1].Free? {
      DropTiled(g, row, size, i + 1);
      DropRoomy(g, row, size, i + 1);
    }
    if i > 0 && row[i - 1].Free? {
      DropTiled(g, right, size, i);
      DropRoomy(g, right, size, i);
    }
  }

  /** The row and the trees are in order again after an allocation. */
  lemma AllocatedKeeps(g: Geometry, row: seq<Buffer>, size: nat, free: Tree, used: Tree, i: nat, need: nat, b: Buffer)
    requires g.Valid() && RowOk(g, row, size) && Indexed(g, row, size, free, used) && Fits(g, row, size, i, need, b)
    ensures var rest := Remainder(g, row, size, i, need);
            var row' := Taken(row, i, b, rest);
            && RowOk(g, row', size) && Charges(g, row') == Charges(g, row) + Charge(g, b)
            && Indexed(g, row', size, FreeTreeAfter(g, row', size, free, b.addr, rest), Insert(used, b.addr, Same(row[i := b])))
  {
    var rest := Remainder(g, row, size, i, need);
    AllocatedOk(g, row, size, i, need, b);
    TakenCharges(g, row, i, b, rest);
    RelabelTiled(g, row, size, i, b);
    TakenIndexed(g, row, size, free, used, i, b, rest);
  }
}
