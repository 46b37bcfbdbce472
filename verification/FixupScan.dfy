/** The walk over a transaction's objects, and what it guarantees about the writes it makes. */
module FixupScan {

  import opened Wrappers
  import opened BufferRow
  import opened FixupRules

  function Minus(a: nat, b: nat): nat {
    (a - b) % WORDS
  }

  /** The size of the structure of an object; an unknown type has none. */
  function SizeOf(o: Object): nat {
    match o
    case Flat => 24
    case Fd => 24
    case Pointer(_, _, _, _) => 40
    case FdArray(_, _, _) => 32
    case Unknown => 0
  }

  /** `binder_validate_object`: subtractions wrap around, and the tests after them make up for it. */
  function ObjectSize(dataSize: nat, offset: nat, o: Object): nat {
    if offset > Minus(dataSize, 4) || dataSize < 4 || offset % 4 != 0 then 0
    else if o == Unknown then 0
    else if offset <= Minus(dataSize, SizeOf(o)) && dataSize >= SizeOf(o) then SizeOf(o)
    else 0
  }

  /** An object is accepted exactly when all of it lies inside the data. */
  lemma ObjectSizeExact(dataSize: nat, offset: nat, o: Object)
    requires Word(dataSize) && Word(offset)
    ensures ObjectSize(dataSize, offset, o) ==
            if offset % 4 != 0 then 0
            else if (o.Flat? || o.Fd?) && offset + 24 <= dataSize then 24
            else if o.Pointer? && offset + 40 <= dataSize then 40
            else if o.FdArray? && offset + 32 <= dataSize then 32
            else 0
  {
    assert dataSize >= 4 ==> Minus(dataSize, 4) == dataSize - 4;
    assert dataSize >= SizeOf(o) ==> Minus(dataSize, SizeOf(o)) == dataSize - SizeOf(o);
  }

  /** `binder_validate_ptr`: an earlier entry that describes a buffer. */
  function EarlierPointer(es: seq<Entry>, index: nat, numValid: nat): (r: Option<nat>)
    requires numValid <= |es|
    ensures r.Some? <==> index < numValid && es[index].obj.Pointer?
  {
    if index >= numValid then None
    else if !es[index].obj.Pointer? then None
    else Some(index)
  }

  /**
   `binder_validate_fixup`: climbs from the buffer last fixed.  It ends because
   every parent comes before its child, and its answer is exactly that buffer
   `p` is on the way and that everything written into it ends before `off`.
   */
  method ValidateFixup(t: Transaction, i: nat, p: nat, off: nat, last: Option<nat>, lastMin: nat) returns (ok: bool)
    requires i <= |t.entries| && GoodUpTo(t, i)
    requires last == LastFixed(t.entries, i) && lastMin == LastMin(t.entries, i)
    ensures ok <==> last.Some? && last.value < |t.entries| && Above(t.entries, last.value, p) && EndBy(Fixups(t.entries, i), p, off)
  {
    if last.None? {
      return false;
    }
    PathEnds(t, i);
    var x: nat := last.value;
    var min := lastMin;
    while x != p
      invariant x < i && Above(t.entries, last.value, x) && min == MaxEnd(t.entries, i, x)
      invariant Above(t.entries, last.value, p) <==> Above(t.entries, x, p)
      decreases x
    {
      assert PathAt(t.entries, i, x);
      if !t.entries[x].obj.hasParent {
        return false;
      }
      min := t.entries[x].obj.parentOffset + 8;
      AboveTrans(t.entries, last.value, x, t.entries[x].obj.parent);
      x := t.entries[x].obj.parent;
    }
    MaxEndExact(t.entries, i, p, off);
    ok := off >= min;
  }

  /** `binder_fixup_parent`, for entry `i` with a parent. */
  method FixupParent(t: Transaction, i: nat, last: Option<nat>, lastMin: nat) returns (ok: bool)
    requires i < |t.entries| && GoodUpTo(t, i) && t.entries[i].obj.Pointer? && WellSized(t)
    requires last == LastFixed(t.entries, i) && lastMin == LastMin(t.entries, i)
    ensures ok <==> (t.entries[i].obj.hasParent ==> Allowed(t.entries, i, t.entries[i].obj.parent, t.entries[i].obj.parentOffset, 8))
  {
    var bp := t.entries[i].obj;
    if !bp.hasParent {
      return true;
    }
    var parent := EarlierPointer(t.entries, bp.parent, i);
    if parent.None? {
      return false;
    }
    var inOrder := ValidateFixup(t, i, bp.parent, bp.parentOffset, last, lastMin);
    var length := t.entries[bp.parent].obj.length;
    ok := inOrder && !(length < 8 || bp.parentOffset > Minus(length, 8));
  }

  /** The tests of `binder_translate_fd_array` that come before any descriptor is translated. */
  predicate ArrayFits(numFds: nat, parentLength: nat, parentOffset: nat) {
    var size := 4 * numFds % WORDS;
    && numFds < (WORDS - 1) / 4
    && !(size > parentLength || parentOffset > Minus(parentLength, size))
    && parentOffset % 4 == 0
  }

  lemma ArrayFitsExact(numFds: nat, parentLength: nat, parentOffset: nat)
    requires Word(parentLength)
    ensures ArrayFits(numFds, parentLength, parentOffset) <==>
            numFds < (WORDS - 1) / 4 && parentOffset % 4 == 0 && parentOffset + 4 * numFds <= parentLength
  {
    if numFds < (WORDS - 1) / 4 {
      assert 4 * numFds % WORDS == 4 * numFds;
      assert 4 * numFds <= parentLength ==> Minus(parentLength, 4 * numFds) == parentLength - 4 * numFds;
    }
  }

  method FixupArray(t: Transaction, i: nat, last: Option<nat>, lastMin: nat) returns (ok: bool)
    requires i < |t.entries| && GoodUpTo(t, i) && t.entries[i].obj.FdArray? && WellSized(t)
    requires last == LastFixed(t.entries, i) && lastMin == LastMin(t.entries, i)
    ensures ok <==> var a := t.entries[i].obj;
                    a.numFds < (WORDS - 1) / 4 && a.parentOffset % 4 == 0 && Allowed(t.entries, i, a.parent, a.parentOffset, 4 * a.numFds)
  {
    var a := t.entries[i].obj;
    var parent := EarlierPointer(t.entries, a.parent, i);
    if parent.None? {
      return false;
    }
    var inOrder := ValidateFixup(t, i, a.parent, a.parentOffset, last, lastMin);
    assert Words(t.entries[a.parent]);
    ArrayFitsExact(a.numFds, t.entries[a.parent].obj.length, a.parentOffset);
    ok := inOrder && ArrayFits(a.numFds, t.entries[a.parent].obj.length, a.parentOffset);
  }

  /** Room for the copies: a rest that is a multiple of 8 holds what fits in it rounded up to one. */
  lemma RoundedFits(length: nat, left: nat)
    requires length <= left && left % 8 == 0 && left < WORDS
    ensures Align64(length) == AlignUp(length) <= left && AlignUp(length) % 8 == 0
  {
    AlignUpBounds(length);
    Align64Exact(length);
  }

  /** Entry `i` is an aligned object of a known type that starts behind the one before it and ends inside the data. */
  predicate Spans(t: Transaction, i: nat)
    requires i < |t.entries|
  {
    var at := t.entries[i].offset;
    && at % 4 == 0
    && (match t.entries[i].obj
        case Flat => at + 24 <= t.dataSize
        case Fd => at + 24 <= t.dataSize
        case Pointer(_, _, _, _) => at + 40 <= t.dataSize
        case FdArray(_, _, _) => at + 32 <= t.dataSize
        case Unknown => false)
    && (i > 0 ==>
          match t.entries[i - 1].obj
          case Pointer(_, _, _, _) => t.entries[i - 1].offset + 40 <= at
          case FdArray(_, _, _) => t.entries[i - 1].offset + 32 <= at
          case _ => t.entries[i - 1].offset + 24 <= at)
  }

  /** Behind good entries, the next is well placed exactly if it spans what its type needs: one byte short, and it is refused. */
  lemma SpansExact(t: Transaction, i: nat)
    requires i < |t.entries| && GoodUpTo(t, i)
    ensures Placed(t, i) <==> Spans(t, i)
  {
    assert i > 0 ==> Good(t, i - 1);
  }

  /** One object: `sg` is where its copy would start. */
  method ScanOne(t: Transaction, i: nat, offMin: nat, sg: nat, last: Option<nat>, lastMin: nat) returns (ok: bool)
    requires i < |t.entries| && GoodUpTo(t, i) && WellSized(t) && t.extraSize % 8 == 0
    requires last == LastFixed(t.entries, i) && lastMin == LastMin(t.entries, i)
    requires sg == Copied(t.entries, i) <= t.extraSize && offMin == DataEnd(t.entries, i)
    ensures ok <==> Good(t, i)
  {
    var e := t.entries[i];
    assert Words(e);
    ObjectSizeExact(t.dataSize, e.offset, e.obj);
    var size := ObjectSize(t.dataSize, e.offset, e.obj);
    if size == 0 || e.offset < offMin {
      return false;
    }
    match e.obj
    case Flat => ok := true;
    case Fd => ok := true;
    case FdArray(_, _, _) => ok := FixupArray(t, i, last, lastMin);
    case Pointer(length, _, _, _) =>
      if length > Minus(t.extraSize, sg) {
        return false;
      }
      ok := FixupParent(t, i, last, lastMin);
  }

  /**
   The walk of `binder_transaction` over the objects; `fails` are those whose
   descriptors, handles or user memory cannot be got.  It stops at the first
   entry `k` that is not good or fails, and accepts when there is none.
   */
  method Scan(t: Transaction, fails: set<nat>) returns (accepted: bool, k: nat)
    requires WellSized(t)
    ensures accepted <==> t.extraSize % 8 == 0 && GoodUpTo(t, |t.entries|) && forall i: nat :: i < |t.entries| ==> i !in fails
    ensures k <= |t.entries| && GoodUpTo(t, k)
    ensures accepted ==> k == |t.entries|
    ensures !accepted && t.extraSize % 8 == 0 ==> k < |t.entries| && (!Good(t, k) || k in fails)
    // Accepted objects are aligned, known and inside the data, behind those before them.
    ensures accepted ==> forall i :: 0 <= i < |t.entries| ==> Spans(t, i)
  {
    k := 0;
    if t.extraSize % 8 != 0 {
      return false, 0;
    }
    var offMin: nat, sg: nat, last: Option<nat>, lastMin: nat := 0, 0, None, 0;
    while k < |t.entries|
      invariant k <= |t.entries| && GoodUpTo(t, k) && (forall i: nat :: i < k ==> i !in fails)
      invariant last == LastFixed(t.entries, k) && lastMin == LastMin(t.entries, k)
      invariant sg == Copied(t.entries, k) <= t.extraSize && sg % 8 == 0 && offMin == DataEnd(t.entries, k)
    {
      var ok := ScanOne(t, k, offMin, sg, last, lastMin);
      if !ok || k in fails {
        return false, k;
      }
      var o := t.entries[k].obj;
      assert Good(t, k);
      offMin := t.entries[k].offset + SizeOf(o);
      if o.Pointer? {
        RoundedFits(o.length, t.extraSize - sg);
        sg := sg + Align64(o.length);
        last, lastMin := Some(k), 0;
      } else if o.FdArray? {
        last, lastMin := Some(o.parent), o.parentOffset + 4 * o.numFds;
      }
      k := k + 1;
    }
    accepted := true;
    forall i | 0 <= i < |t.entries|
      ensures Spans(t, i)
    {
      SpansExact(t, i);
      assert Good(t, i);
    }
  }

  // --- what acceptance means -----------------------------------------------

  /** Every write lies inside the buffer it goes into, and writes into one buffer go upwards. */
  lemma {:induction false} WritesInOrder(t: Transaction, k: nat)
    requires k <= |t.entries| && GoodUpTo(t, k)
    ensures forall a :: 0 <= a < |Fixups(t.entries, k)| ==>
              var f := Fixups(t.entries, k)[a];
              f.start <= f.end && f.parent < k && t.entries[f.parent].obj.Pointer? && f.end <= t.entries[f.parent].obj.length
    ensures forall a, b :: 0 <= a < b < |Fixups(t.entries, k)| && Fixups(t.entries, k)[a].parent == Fixups(t.entries, k)[b].parent ==>
              Fixups(t.entries, k)[a].end <= Fixups(t.entries, k)[b].start
  {
    if k > 0 {
      WritesInOrder(t, k - 1);
      assert Good(t, k - 1);
      assert FixupOf(t.entries[k - 1].obj).None? ==> Fixups(t.entries, k) == Fixups(t.entries, k - 1);
    }
  }

  /** Copies follow each other in the extra area and do not leave it. */
  lemma {:induction false} CopiesApart(t: Transaction, k: nat)
    requires k <= |t.entries| && GoodUpTo(t, k) && t.extraSize % 8 == 0 && Word(t.extraSize)
    ensures Copied(t.entries, k) <= t.extraSize && Copied(t.entries, k) % 8 == 0
    ensures forall i :: 0 <= i < k && t.entries[i].obj.Pointer? ==>
              Copied(t.entries, i) % 8 == 0 && Copied(t.entries, i) + t.entries[i].obj.length <= Copied(t.entries, k)
    ensures forall i, j :: 0 <= i < j < k && t.entries[i].obj.Pointer? ==>
              Copied(t.entries, i) + t.entries[i].obj.length <= Copied(t.entries, j)
  {
    if k > 0 {
      CopiesApart(t, k - 1);
      assert Good(t, k - 1);
      if t.entries[k - 1].obj.Pointer? {
        RoundedFits(t.entries[k - 1].obj.length, t.extraSize - Copied(t.entries, k - 1));
        AlignUpBounds(t.entries[k - 1].obj.length);
      }
    }
  }

  /** Where a write lands in the extra area. */
  function Landing(es: seq<Entry>, f: Fixup): (int, int)
    requires f.parent <= |es|
  {
    (Copied(es, f.parent) + f.start, Copied(es, f.parent) + f.end)
  }

  /** No two writes that were made touch the same byte, and none leaves the extra area, whether or not the walk went on to the end. */
  lemma WritesDisjoint(t: Transaction, k: nat, a: nat, b: nat)
    requires k <= |t.entries| && GoodUpTo(t, k) && t.extraSize % 8 == 0 && Word(t.extraSize)
    requires a < b < |Fixups(t.entries, k)|
    ensures var fs := Fixups(t.entries, k);
            && fs[a].parent < k && fs[b].parent < k
            && var (x, y) := (Landing(t.entries, fs[a]), Landing(t.entries, fs[b]));
               && 0 <= x.0 <= x.1 <= t.extraSize && 0 <= y.0 <= y.1 <= t.extraSize
               && (x.1 <= y.0 || y.1 <= x.0)
  {
    WritesInOrder(t, k);
    CopiesApart(t, k);
  }

  /** The objects themselves do not overlap, so that entries can be told apart by their offsets. */
  lemma {:induction false} ObjectsApart(t: Transaction, i: nat, j: nat)
    requires i < j < |t.entries| && GoodUpTo(t, j + 1)
    ensures t.entries[i].offset + (if t.entries[i].obj.Pointer? then 40 else if t.entries[i].obj.FdArray? then 32 else 24) <= t.entries[j].offset
  {
    assert Good(t, i) && Good(t, j);
    if i + 1 < j {
      ObjectsApart(t, i, j - 1);
      assert Good(t, j - 1);
    }
  }
}
