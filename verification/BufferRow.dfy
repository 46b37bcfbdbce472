/** Requested sizes, and what allocating and freeing do to the row as a whole. */
module BufferRow {
  import opened Wrappers
  import opened BufferLayout

  // --- requested sizes -----------------------------------------------------

  const WORDS: nat := 0x1_0000_0000_0000_0000

  /** The least multiple of 8 that is at least `x`. */
  function AlignUp(x: nat): nat {
    if x == 0 then 0 else if x < 8 then 8 else 8 + AlignUp(x - 8)
  }

  lemma {:induction false} AlignUpClosed(x: nat)
    ensures AlignUp(x) == (x + 7) / 8 * 8
  {
    if x >= 8 {
      AlignUpClosed(x - 8);
    }
  }

  /** ALIGN(x, 8) in 64-bit arithmetic. */
  function Align64(x: nat): nat {
    (x + 7) % WORDS / 8 * 8
  }

  /** Adding the aligned `y` to `a` in 64 bits, refused if the sum is below `x` or `y`. */
  function AddChecked(a: nat, x: nat, y: nat): Option<nat> {
    var sum := (a + Align64(y)) % WORDS;
    if sum < x || sum < y then None else Some(sum)
  }

  /** The size computation of an allocation with its two overflow tests. */
  function RequestSize(data: nat, offsets: nat, extra: nat): Option<nat> {
    var both := AddChecked(Align64(data), data, offsets);
    if both == None then None else AddChecked(both.value, both.value, extra)
  }

  function TrueSize(data: nat, offsets: nat, extra: nat): nat {
    AlignUp(data) + AlignUp(offsets) + AlignUp(extra)
  }

  lemma AlignUpBounds(x: nat)
    ensures x <= AlignUp(x) <= x + 7 && AlignUp(x) % 8 == 0
  {
    AlignUpClosed(x);
  }

  /** In 64 bits, aligning wraps to zero for the seven largest sizes and is exact otherwise. */
  lemma Align64Exact(x: nat)
    requires x < WORDS
    ensures Align64(x) == if x <= WORDS - 8 then AlignUp(x) else 0
    ensures x <= WORDS - 8 <==> AlignUp(x) < WORDS
    ensures Align64(x) <= WORDS - 8 && Align64(x) % 8 == 0
  {
    AlignUpClosed(x);
  }

  lemma WrapSum(a: nat, b: nat)
    requires a < WORDS && b < WORDS && a % 8 == 0 && b % 8 == 0
    ensures (a + b) % WORDS == (if a + b < WORDS then a + b else a + b - WORDS)
    ensures (a + b) % WORDS % 8 == 0
  {
  }

  /** Adding two aligned sizes wraps exactly when the tests against the unaligned ones notice. */
  lemma AddCheckedExact(x: nat, y: nat)
    requires x < WORDS && y < WORDS
    ensures AddChecked(Align64(x), x, y) == if AlignUp(x) + AlignUp(y) < WORDS then Some(AlignUp(x) + AlignUp(y)) else None
  {
    Align64Exact(x);
    Align64Exact(y);
    AlignUpBounds(x);
    AlignUpBounds(y);
    WrapSum(Align64(x), Align64(y));
  }

  lemma AlignedStays(x: nat)
    requires x < WORDS && x % 8 == 0
    ensures AlignUp(x) == x && Align64(x) == x
  {
    AlignUpClosed(x);
  }

  lemma Multiples(a: nat, b: nat)
    requires a % 8 == 0 && b % 8 == 0
    ensures (a + b) % 8 == 0
  {
  }

  lemma AlignedSum(x: nat, y: nat)
    ensures (AlignUp(x) + AlignUp(y)) % 8 == 0
  {
    AlignUpBounds(x);
    AlignUpBounds(y);
    Multiples(AlignUp(x), AlignUp(y));
  }

  /** The tests accept a request exactly when the true sum of the aligned sizes fits in 64 bits. */
  lemma RequestSizeExact(data: nat, offsets: nat, extra: nat)
    requires data < WORDS && offsets < WORDS && extra < WORDS
    ensures RequestSize(data, offsets, extra) ==
            if TrueSize(data, offsets, extra) < WORDS then Some(TrueSize(data, offsets, extra)) else None
  {
    AddCheckedExact(data, offsets);
    var both := AlignUp(data) + AlignUp(offsets);
    if both < WORDS {
      AlignedSum(data, offsets);
      AlignedStays(both);
      AddCheckedExact(both, extra);
    }
  }

  lemma TrueSizeAligned(data: nat, offsets: nat, extra: nat)
    ensures TrueSize(data, offsets, extra) % 8 == 0
  {
    AlignedSum(data, offsets);
    AlignUpBounds(extra);
    Multiples(AlignUp(data) + AlignUp(offsets), AlignUp(extra));
  }

  /** The size a buffer was allocated for, recomputed in 64-bit arithmetic when it is freed. */
  function StoredSize(b: Buffer): nat
    requires b.Used?
  {
    (Align64(b.data) + Align64(b.offsets) + Align64(b.extra)) % WORDS
  }

  lemma StoredSizeExact(b: Buffer)
    requires b.Used? && b.data < WORDS && b.offsets < WORDS && b.extra < WORDS
    requires TrueSize(b.data, b.offsets, b.extra) < WORDS
    ensures StoredSize(b) == TrueSize(b.data, b.offsets, b.extra)
  {
    Align64Exact(b.data);
    Align64Exact(b.offsets);
    Align64Exact(b.extra);
  }

  // --- neighbours ----------------------------------------------------------

  predicate Apart(row: seq<Buffer>, i: nat)
    requires i + 1 < |row|
  {
    row[i].Used? || row[i + 1].Used?
  }

  /** No two neighbours are both free. */
  predicate Coalesced(row: seq<Buffer>) {
    forall i {:trigger Apart(row, i)} :: 0 <= i < |row| - 1 ==> Apart(row, i)
  }

  /** The row after merging the free buffer `i` with its free neighbours. */
  function Merged(row: seq<Buffer>, i: nat): seq<Buffer>
    requires i < |row|
  {
    var right := if i + 1 < |row| && row[i + 1].Free? then Drop(row, i + 1) else row;
    if i > 0 && row[i - 1].Free? then Drop(right, i) else right
  }

  /** The row after freeing buffer `i` and merging it with its free neighbours. */
  function Freed(row: seq<Buffer>, i: nat): seq<Buffer>
    requires i < |row|
  {
    Merged(row[i := Free(row[i].addr)], i)
  }

  /** Where the merged buffer ends up, and how far the buffers after it move. */
  lemma FreedAt(row: seq<Buffer>, i: nat, j: nat)
    requires i < |row| && j < |Freed(row, i)|
    ensures var left, right := i > 0 && row[i - 1].Free?, i + 1 < |row| && row[i + 1].Free?;
            var at, cut := if left then i - 1 else i, (if left then 1 else 0) + (if right then 1 else 0);
            && |Freed(row, i)| == |row| - cut
            && (j < at ==> Freed(row, i)[j] == row[j])
            && (j == at ==> Freed(row, i)[j].Free?)
            && (j > at ==> Freed(row, i)[j] == row[j + cut])
  {
  }

  lemma FreedCoalesced(row: seq<Buffer>, i: nat)
    requires Coalesced(row) && i < |row| && row[i].Used?
    ensures Coalesced(Freed(row, i))
  {
    var row' := Freed(row, i);
    var left, right := i > 0 && row[i - 1].Free?, i + 1 < |row| && row[i + 1].Free?;
    var at := if left then i - 1 else i;
    var cut := (if left then 1 else 0) + (if right then 1 else 0);
    forall j | 0 <= j < |row'| - 1 ensures Apart(row', j) {
      FreedAt(row, i, j);
      FreedAt(row, i, j + 1);
      if j < at {
        assert Apart(row, j);
      } else {
        assert Apart(row, j + cut);
      }
    }
  }

  lemma TakenCoalesced(row: seq<Buffer>, i: nat, b: Buffer, rest: Option<nat>)
    requires i < |row| && Coalesced(row) && row[i].Free? && b.Used?
    ensures Coalesced(Taken(row, i, b, rest))
  {
    var row' := Taken(row, i, b, rest);
    var cut := if rest == None then 0 else 1;
    assert i + 1 < |row| ==> Apart(row, i);
    forall j | 0 <= j < |row'| - 1 ensures Apart(row', j) {
      if j + 1 < i {
        assert Apart(row, j);
        assert row'[j] == row[j] && row'[j + 1] == row[j + 1];
      } else if j > i + cut {
        assert Apart(row, j - cut);
        assert row'[j] == row[j - cut] && row'[j + 1] == row[j + 1 - cut];
      } else if j == i + cut && cut == 1 {
        assert row'[j + 1] == row[i + 1];
      } else {
        assert row'[i] == b;
      }
    }
  }

  /** Freeing what was just taken restores the row exactly. */
  lemma FreeUndoesTake(row: seq<Buffer>, i: nat, b: Buffer, rest: Option<nat>)
    requires i < |row| && Coalesced(row) && row[i].Free? && b.Used? && b.addr == row[i].addr
    ensures Freed(Taken(row, i, b, rest), i) == row
  {
    assert i > 0 ==> Apart(row, i - 1);
    assert i + 1 < |row| ==> Apart(row, i);
    if rest == None {
      assert row[i := b][i := Free(row[i].addr)] == row;
    } else {
      var cut := Cut(row, i, rest.value);
      CutAfterTake(row, i, b, rest.value);
      assert cut[i := b][i := Free(row[i].addr)] == cut;
      assert Drop(cut, i + 1) == row;
    }
  }

  /** Allocating and then freeing is the identity on rows. */
  lemma FreeUndoesAllocate(g: Geometry, row: seq<Buffer>, size: nat, i: nat, need: nat, b: Buffer)
    requires i < |row| && Coalesced(row) && row[i].Free? && b.Used? && b.addr == row[i].addr
    ensures Freed(Allocated(g, row, size, i, need, b), i) == row
  {
    FreeUndoesTake(row, i, b, Remainder(g, row, size, i, need));
  }

  /** A coalesced row with nothing allocated is a single free buffer. */
  lemma AllFree(g: Geometry, row: seq<Buffer>, size: nat)
    requires Tiled(g, row, size) && Coalesced(row)
    requires forall i :: 0 <= i < |row| ==> row[i].Free?
    ensures row == [Free(0)]
  {
    assert |row| > 1 ==> Apart(row, 0);
  }

  // --- the budget for one-way calls ----------------------------------------

  function Charge(g: Geometry, b: Buffer): nat {
    if b.Used? && b.async then TrueSize(b.data, b.offsets, b.extra) + g.header else 0
  }

  function Charges(g: Geometry, row: seq<Buffer>): nat {
    if row == [] then 0 else Charge(g, row[0]) + Charges(g, row[1..])
  }

  lemma {:induction false} ChargesSplit(g: Geometry, row: seq<Buffer>, tail: seq<Buffer>)
    ensures Charges(g, row + tail) == Charges(g, row) + Charges(g, tail)
  {
    if row == [] {
      assert row + tail == tail;
    } else {
      assert (row + tail)[1..] == row[1..] + tail;
      ChargesSplit(g, row[1..], tail);
    }
  }

  lemma ChargesAt(g: Geometry, row: seq<Buffer>, i: nat)
    requires i < |row|
    ensures Charges(g, row) == Charges(g, row[..i]) + Charge(g, row[i]) + Charges(g, row[i + 1..])
  {
    assert row == row[..i] + row[i..];
    ChargesSplit(g, row[..i], row[i..]);
    assert row[i..][1..] == row[i + 1..];
  }

  lemma ChargesRelabel(g: Geometry, row: seq<Buffer>, i: nat, b: Buffer)
    requires i < |row|
    ensures Charges(g, row[i := b]) == Charges(g, row) - Charge(g, row[i]) + Charge(g, b)
  {
    ChargesAt(g, row, i);
    ChargesAt(g, row[i := b], i);
    assert row[i := b][..i] == row[..i] && row[i := b][i + 1..] == row[i + 1..];
  }

  lemma ChargesCut(g: Geometry, row: seq<Buffer>, i: nat, a: nat)
    requires i < |row|
    ensures Charges(g, Cut(row, i, a)) == Charges(g, row)
  {
    ChargesSplit(g, row[..i + 1] + [Free(a)], row[i + 1..]);
    ChargesSplit(g, row[..i + 1], [Free(a)]);
    ChargesSplit(g, row[..i + 1], row[i + 1..]);
    assert row == row[..i + 1] + row[i + 1..];
  }

  lemma ChargesDrop(g: Geometry, row: seq<Buffer>, j: nat)
    requires j < |row|
    ensures Charges(g, Drop(row, j)) == Charges(g, row) - Charge(g, row[j])
  {
    ChargesAt(g, row, j);
    ChargesSplit(g, row[..j], row[j + 1..]);
  }

  /** Taking a buffer charges for it, freeing one refunds it, merging costs nothing. */
  lemma TakenCharges(g: Geometry, row: seq<Buffer>, i: nat, b: Buffer, rest: Option<nat>)
    requires i < |row| && row[i].Free?
    ensures Charges(g, Taken(row, i, b, rest)) == Charges(g, row) + Charge(g, b)
  {
    ChargesRelabel(g, row, i, b);
    if rest.Some? {
      ChargesCut(g, row[i := b], i, rest.value);
    }
  }

  lemma FreedCharges(g: Geometry, row: seq<Buffer>, i: nat)
    requires i < |row|
    ensures Charges(g, Freed(row, i)) == Charges(g, row) - Charge(g, row[i])
  {
    var freed := row[i := Free(row[i].addr)];
    ChargesRelabel(g, row, i, Free(row[i].addr));
    if i + 1 < |row| && row[i + 1].Free? {
      ChargesDrop(g, freed, i + 1);
    }
    var right := if i + 1 < |row| && row[i + 1].Free? then Drop(freed, i + 1) else freed;
    if i > 0 && row[i - 1].Free? {
      ChargesDrop(g, right, i);
    }
  }

  // --- addresses -----------------------------------------------------------

  function Addrs(row: seq<Buffer>): set<nat> {
    set b | b in row :: b.addr
  }

  function FreeAddrs(row: seq<Buffer>): set<nat> {
    set b | b in row && b.Free? :: b.addr
  }

  function UsedAddrs(row: seq<Buffer>): set<nat> {
    set b | b in row && b.Used? :: b.addr
  }

  /** The buffer at address `a`: following the pointer. */
  function IndexOf(row: seq<Buffer>, a: nat): (i: nat)
    requires a in Addrs(row)
    ensures i < |row| && row[i].addr == a
  {
    if row[0].addr == a then 0 else
      assert a in Addrs(row[1..]) by {
        var b :| b in row && b.addr == a;
        assert b in row[1..];
      }
      1 + IndexOf(row[1..], a)
  }

  lemma IndexUnique(g: Geometry, row: seq<Buffer>, size: nat, i: nat)
    requires g.Valid() && Tiled(g, row, size) && i < |row|
    ensures row[i].addr in Addrs(row) && IndexOf(row, row[i].addr) == i
  {
    assert row[i] in row;
    var j := IndexOf(row, row[i].addr);
    if i < j {
      Ordered(g, row, size, i, j);
    } else if j < i {
      Ordered(g, row, size, j, i);
    }
  }

  /** The size of every buffer, recomputed from its neighbour in the row. */
  function Rooms(g: Geometry, row: seq<Buffer>, size: nat): (m: map<nat, nat>)
    ensures m.Keys == Addrs(row)
  {
    map a | a in Addrs(row) :: Room(g, row, size, IndexOf(row, a))
  }

  lemma RoomsAt(g: Geometry, row: seq<Buffer>, size: nat, i: nat)
    requires g.Valid() && Tiled(g, row, size) && i < |row|
    ensures Placed(g, row, size, i) && row[i].addr in Rooms(g, row, size)
    ensures Rooms(g, row, size)[row[i].addr] == Room(g, row, size, i)
  {
    assert Placed(g, row, size, i);
    IndexUnique(g, row, size, i);
  }

  function Same(row: seq<Buffer>): (m: map<nat, nat>)
    ensures m.Keys == Addrs(row)
  {
    map a | a in Addrs(row) :: a
  }
}
