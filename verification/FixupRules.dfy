/**
 Buffers that travel with a transaction.  Pointer objects are copied one after
 the other into the extra area, and may ask for their address, or an array of
 file descriptors, to be written into a buffer copied before.
 */
module FixupRules {

  import opened Wrappers
  import opened BufferRow

  /** What is found at an offset of the data; all numbers are 64-bit. */
  datatype Object =
    | Flat
    | Fd
    | Pointer(length: nat, hasParent: bool, parent: nat, parentOffset: nat)
    | FdArray(numFds: nat, parent: nat, parentOffset: nat)
    | Unknown

  datatype Entry = Entry(offset: nat, obj: Object)

  datatype Transaction = Transaction(dataSize: nat, extraSize: nat, entries: seq<Entry>)

  /** A write into the copy of the buffer that entry `parent` describes. */
  datatype Fixup = Fixup(parent: nat, start: nat, end: nat)

  predicate Word(x: nat) {
    x < WORDS
  }

  predicate Words(e: Entry) {
    && Word(e.offset)
    && match e.obj
       case Pointer(length, _, parent, off) => Word(length) && Word(parent) && Word(off)
       case FdArray(num, parent, off) => Word(num) && Word(parent) && Word(off)
       case Flat => true
       case Fd => true
       case Unknown => true
  }

  predicate WellSized(t: Transaction) {
    Word(t.dataSize) && Word(t.extraSize) && forall i :: 0 <= i < |t.entries| ==> Words(t.entries[i])
  }

  // --- what the entries ask for --------------------------------------------

  function FixupOf(o: Object): Option<Fixup> {
    match o
    case Pointer(_, true, p, off) => Some(Fixup(p, off, off + 8))
    case FdArray(n, p, off) => Some(Fixup(p, off, off + 4 * n))
    case _ => None
  }

  /** The writes that the first `k` entries ask for. */
  function Fixups(es: seq<Entry>, k: nat): seq<Fixup>
    requires k <= |es|
  {
    if k == 0 then []
    else Fixups(es, k - 1) + match FixupOf(es[k - 1].obj) case Some(f) => [f] case None => []
  }

  /** The last buffer described, or written into. */
  function LastFixed(es: seq<Entry>, k: nat): Option<nat>
    requires k <= |es|
  {
    if k == 0 then None
    else
      match es[k - 1].obj
      case Pointer(_, _, _, _) => Some(k - 1)
      case FdArray(_, p, _) => Some(p)
      case _ => LastFixed(es, k - 1)
  }

  /** Where the copy of the next buffer starts. */
  function Copied(es: seq<Entry>, k: nat): nat
    requires k <= |es|
  {
    if k == 0 then 0 else Copied(es, k - 1) + if es[k - 1].obj.Pointer? then AlignUp(es[k - 1].obj.length) else 0
  }

  /** Where the object of an entry ends in the data, by the layout of each type. */
  function EndOf(e: Entry): nat {
    match e.obj
    case Flat => e.offset + 24
    case Fd => e.offset + 24
    case Pointer(_, _, _, _) => e.offset + 40
    case FdArray(_, _, _) => e.offset + 32
    case Unknown => e.offset
  }

  function DataEnd(es: seq<Entry>, k: nat): nat
    requires k <= |es|
  {
    if k == 0 then 0 else EndOf(es[k - 1])
  }

  /** Buffer `p` is buffer `x`, or its parent, or its parent's parent, and so on. */
  predicate Above(es: seq<Entry>, x: nat, p: nat)
    requires x < |es|
    decreases x
  {
    x == p || (es[x].obj.Pointer? && es[x].obj.hasParent && es[x].obj.parent < x && Above(es, es[x].obj.parent, p))
  }

  /** All these writes into buffer `p` end at or before `off`. */
  predicate EndBy(fs: seq<Fixup>, p: nat, off: nat) {
    forall k :: 0 <= k < |fs| && fs[k].parent == p ==> fs[k].end <= off
  }

  // --- when an entry is accepted -------------------------------------------

  /** A write of `size` bytes at `off` into buffer `p`, as the next entry may ask for. */
  predicate Allowed(es: seq<Entry>, i: nat, p: nat, off: nat, size: nat)
    requires i <= |es|
  {
    && p < i && es[p].obj.Pointer?
    && LastFixed(es, i).Some? && LastFixed(es, i).value < |es| && Above(es, LastFixed(es, i).value, p)
    && EndBy(Fixups(es, i), p, off)
    && off + size <= es[p].obj.length
  }

  predicate Placed(t: Transaction, i: nat)
    requires i < |t.entries|
  {
    var e := t.entries[i];
    e.obj != Unknown && e.offset % 4 == 0 && DataEnd(t.entries, i) <= e.offset && EndOf(e) <= t.dataSize
  }

  predicate Good(t: Transaction, i: nat)
    requires i < |t.entries|
  {
    && Placed(t, i)
    && match t.entries[i].obj
       case Flat => true
       case Fd => true
       case Pointer(length, has, p, off) => Copied(t.entries, i) + length <= t.extraSize && (has ==> Allowed(t.entries, i, p, off, 8))
       case FdArray(n, p, off) => n < (WORDS - 1) / 4 && off % 4 == 0 && Allowed(t.entries, i, p, off, 4 * n)
       case Unknown => false
  }

  predicate GoodUpTo(t: Transaction, k: nat)
    requires k <= |t.entries|
  {
    forall i {:trigger Good(t, i)} :: 0 <= i < k ==> Good(t, i)
  }

  /** Entry `j` describes buffer `x`, or writes descriptors into it. */
  predicate Fixes(es: seq<Entry>, j: nat, x: nat)
    requires j < |es|
  {
    match es[j].obj
    case Pointer(_, _, _, _) => x == j
    case FdArray(_, p, _) => x == p
    case _ => false
  }

  /** The last one fixed is that of the last entry that fixes any. */
  lemma {:induction false} LastFixedIs(es: seq<Entry>, k: nat)
    requires k <= |es|
    ensures LastFixed(es, k).None? <==> forall j, x :: 0 <= j < k ==> !Fixes(es, j, x)
    ensures LastFixed(es, k).Some? ==>
              exists j :: 0 <= j < k && Fixes(es, j, LastFixed(es, k).value) && forall i, x :: j < i < k ==> !Fixes(es, i, x)
  {
    if k > 0 {
      LastFixedIs(es, k - 1);
      if es[k - 1].obj.Pointer? || es[k - 1].obj.FdArray? {
        assert Fixes(es, k - 1, LastFixed(es, k).value);
      }
    }
  }

  /** A copy takes its length, rounded up to the next multiple of 8, and nothing else takes any. */
  lemma CopiedNext(es: seq<Entry>, k: nat)
    requires k < |es|
    ensures var taken := Copied(es, k + 1) - Copied(es, k);
            if es[k].obj.Pointer? then es[k].obj.length <= taken < es[k].obj.length + 8 && taken % 8 == 0 else taken == 0
  {
    if es[k].obj.Pointer? {
      AlignUpBounds(es[k].obj.length);
    }
  }

  // --- the end of what has been written ------------------------------------

  /** The end of the highest write into buffer `p` so far. */
  function MaxEnd(es: seq<Entry>, k: nat, p: nat): nat
    requires k <= |es|
  {
    if k == 0 then 0
    else
      var before := MaxEnd(es, k - 1, p);
      match FixupOf(es[k - 1].obj)
      case Some(f) => if f.parent == p && f.end > before then f.end else before
      case None => before
  }

  lemma {:induction false} MaxEndExact(es: seq<Entry>, k: nat, p: nat, off: nat)
    requires k <= |es|
    ensures MaxEnd(es, k, p) <= off <==> EndBy(Fixups(es, k), p, off)
  {
    if k > 0 {
      MaxEndExact(es, k - 1, p, off);
      if FixupOf(es[k - 1].obj).Some? {
        EndByOneMore(Fixups(es, k - 1), FixupOf(es[k - 1].obj).value, p, off);
      } else {
        assert Fixups(es, k) == Fixups(es, k - 1);
      }
    }
  }

  lemma EndByOneMore(fs: seq<Fixup>, f: Fixup, p: nat, off: nat)
    ensures EndBy(fs + [f], p, off) <==> EndBy(fs, p, off) && (f.parent == p ==> f.end <= off)
  {
    var all := fs + [f];
    assert all[|fs|] == f;
    assert forall k :: 0 <= k < |fs| ==> fs[k] == all[k];
  }

  lemma {:induction false} AboveTrans(es: seq<Entry>, x: nat, p: nat, y: nat)
    requires x < |es| && p < |es| && Above(es, x, p) && Above(es, p, y)
    ensures Above(es, x, y)
    decreases x
  {
    if x != p {
      AboveTrans(es, es[x].obj.parent, p, y);
    }
  }

  lemma {:induction false} AboveBelow(es: seq<Entry>, x: nat, p: nat)
    requires x < |es| && Above(es, x, p)
    ensures p <= x
    decreases x
  {
    if x != p {
      AboveBelow(es, es[x].obj.parent, p);
    }
  }

  /** No write goes into a buffer that has not been described yet. */
  lemma {:induction false} NothingAhead(t: Transaction, k: nat, p: nat)
    requires k <= |t.entries| && GoodUpTo(t, k) && p >= k
    ensures MaxEnd(t.entries, k, p) == 0
  {
    if k > 0 {
      assert Good(t, k - 1);
      NothingAhead(t, k - 1, p);
    }
  }

  /** The lowest offset at which the buffer last fixed may be written next. */
  function LastMin(es: seq<Entry>, k: nat): nat
    requires k <= |es|
  {
    if k == 0 then 0
    else
      match es[k - 1].obj
      case Pointer(_, _, _, _) => 0
      case FdArray(n, _, off) => off + 4 * n
      case _ => LastMin(es, k - 1)
  }

  /** On the way up from the buffer last fixed, each child's own address is the highest write into its parent. */
  predicate PathAt(es: seq<Entry>, k: nat, y: nat)
    requires k <= |es|
  {
    && y < k && es[y].obj.Pointer?
    && (es[y].obj.hasParent ==> es[y].obj.parent < y && MaxEnd(es, k, es[y].obj.parent) == es[y].obj.parentOffset + 8)
  }

  lemma {:induction false} PathEnds(t: Transaction, k: nat)
    requires k <= |t.entries| && GoodUpTo(t, k) && LastFixed(t.entries, k).Some?
    ensures var x := LastFixed(t.entries, k).value;
            && x < k && MaxEnd(t.entries, k, x) == LastMin(t.entries, k)
            && forall y {:trigger PathAt(t.entries, k, y)} :: Above(t.entries, x, y) ==> PathAt(t.entries, k, y)
  {
    var es := t.entries;
    assert Good(t, k - 1);
    match es[k - 1].obj
    case Pointer(_, has, p, off) =>
      NothingAhead(t, k - 1, k - 1);
      if has {
        PathEnds(t, k - 1);
        WriteInto(t, k, p, off);
        forall y | Above(es, k - 1, y)
          ensures PathAt(es, k, y)
        {
          if y != k - 1 {
            PathStays(t, k, p, y);
          }
        }
      }
    case FdArray(n, p, off) =>
      PathEnds(t, k - 1);
      WriteInto(t, k, p, off);
      forall y | Above(es, p, y)
        ensures PathAt(es, k, y)
      {
        PathStays(t, k, p, y);
      }
    case Flat =>
      PathEnds(t, k - 1);
      assert forall y :: PathAt(es, k - 1, y) ==> PathAt(es, k, y);
    case Fd =>
      PathEnds(t, k - 1);
      assert forall y :: PathAt(es, k - 1, y) ==> PathAt(es, k, y);
    case Unknown =>
  }

  /** Entry `k - 1` writes into `p` at or above everything before. */
  lemma WriteInto(t: Transaction, k: nat, p: nat, off: nat)
    requires 0 < k <= |t.entries| && Good(t, k - 1)
    requires FixupOf(t.entries[k - 1].obj).Some? && FixupOf(t.entries[k - 1].obj).value.parent == p
    requires FixupOf(t.entries[k - 1].obj).value.start == off
    ensures MaxEnd(t.entries, k, p) == FixupOf(t.entries[k - 1].obj).value.end
    ensures MaxEnd(t.entries, k - 1, p) <= off
  {
    MaxEndExact(t.entries, k - 1, p, off);
  }

  /** Above the parent that entry `k - 1` writes into, nothing changes. */
  lemma PathStays(t: Transaction, k: nat, p: nat, y: nat)
    requires 0 < k <= |t.entries| && Good(t, k - 1) && p < k - 1 && Above(t.entries, p, y)
    requires FixupOf(t.entries[k - 1].obj).Some? && FixupOf(t.entries[k - 1].obj).value.parent == p
    requires LastFixed(t.entries, k - 1).Some? && LastFixed(t.entries, k - 1).value < k - 1
    requires forall z {:trigger PathAt(t.entries, k - 1, z)} :: Above(t.entries, LastFixed(t.entries, k - 1).value, z) ==> PathAt(t.entries, k - 1, z)
    ensures PathAt(t.entries, k, y)
  {
    var x := LastFixed(t.entries, k - 1).value;
    AboveTrans(t.entries, x, p, y);
    AboveBelow(t.entries, p, y);
    assert PathAt(t.entries, k - 1, y);
  }
}
