/**
 Pinning and unpinning of shared memory pages, and the purge of unpinned ones.
 Every operation runs under one lock.
 */
module AshmemDriver {

  import opened Sequences
  import opened AshmemRanges
  import opened AshmemSteps

  /** The range shares a page with `s`..`e`. */
  predicate Meets(r: Range, s: nat, e: nat)
  {
    (r.start <= s <= r.end) || (r.start <= e <= r.end) || (s <= r.start && r.end <= e)
  }

  /** The three-way test is intersection. */
  lemma MeetsIsIntersection(r: Range, s: nat, e: nat)
    requires r.start <= r.end && s <= e
    ensures Meets(r, s, e) <==> exists p: nat :: Has(r, p) && s <= p <= e
  {
    if Meets(r, s, e) {
      var p := if r.start <= s then s else r.start;
      assert Has(r, p) && s <= p <= e;
    }
  }

  /** Page `p` is asked for, or lies in a range that shares a page with what is asked for. */
  predicate Joined(ranges: map<RangeId, Range>, list: seq<RangeId>, s: nat, e: nat, p: nat) {
    s <= p <= e || exists id :: id in list && id in ranges && Has(ranges[id], p) && Meets(ranges[id], s, e)
  }

  /** A range reaches beyond `s`..`e` on both sides, and page `p` is in its upper part. */
  predicate CutTail(ranges: map<RangeId, Range>, list: seq<RangeId>, s: nat, e: nat, p: nat) {
    exists id :: id in list && id in ranges && ranges[id].start < s && e < ranges[id].end && e < p <= ranges[id].end
  }

  /** One range holds all that is asked for. */
  predicate Inside(ranges: map<RangeId, Range>, list: seq<RangeId>, s: nat, e: nat) {
    exists id :: id in list && id in ranges && ranges[id].start <= s && e <= ranges[id].end
  }

  /** A purged page is asked for. */
  predicate AnyMarked(ranges: map<RangeId, Range>, list: seq<RangeId>, s: nat, e: nat) {
    exists p: nat :: s <= p <= e && Marks(ranges, list, p)
  }

  function PagesOf(r: Range): set<(AreaId, nat)> {
    set p: nat | r.start <= p <= r.end :: (r.area, p)
  }

  predicate Tracked(areas: map<AreaId, seq<RangeId>>, ranges: map<RangeId, Range>, lost: set<(AreaId, nat)>) {
    forall l :: l in lost ==> l.0 in areas && Marks(ranges, areas[l.0], l.1)
  }

  lemma TrackedKept(areas0: map<AreaId, seq<RangeId>>, ranges0: map<RangeId, Range>,
                    areas: map<AreaId, seq<RangeId>>, ranges: map<RangeId, Range>, a: AreaId,
                    lost0: set<(AreaId, nat)>, lost: set<(AreaId, nat)>)
    requires a in areas0 && Tracked(areas0, ranges0, lost0) && Elsewhere(a, areas0, ranges0, areas, ranges)
    requires forall b {:trigger AreaAt(areas0, ranges0, b)} :: b in areas0 ==> AreaAt(areas0, ranges0, b)
    requires lost <= lost0
    requires forall p: nat :: (a, p) in lost && Marks(ranges0, areas0[a], p) ==> Marks(ranges, areas[a], p)
    ensures Tracked(areas, ranges, lost)
  {
    forall l | l in lost
      ensures l.0 in areas && Marks(ranges, areas[l.0], l.1)
    {
      if l.0 != a {
        assert AreaAt(areas0, ranges0, l.0);
        ElsewhereKept(a, areas0, ranges0, areas, ranges, l.0);
      } else {
        assert l == (a, l.1);
      }
    }
  }

  /** The ranges named by `ids`, purged. */
  function PurgeAll(ranges: map<RangeId, Range>, ids: seq<RangeId>): map<RangeId, Range>
  {
    if ids == [] then ranges
    else
      var before := PurgeAll(ranges, ids[..|ids| - 1]);
      var id := ids[|ids| - 1];
      if id in before then Purge(before, id) else before
  }

  /** The pages of the ranges named by `ids`. */
  function Discarded(ranges: map<RangeId, Range>, ids: seq<RangeId>): set<(AreaId, nat)>
  {
    set i, p: nat | 0 <= i < |ids| && ids[i] in ranges && ranges[ids[i]].start <= p <= ranges[ids[i]].end
                    :: (ranges[ids[i]].area, p)
  }

  lemma {:induction false} PageCount(a: AreaId, s: nat, e: int)
    requires s <= e + 1
    ensures |set p: nat | s <= p <= e :: (a, p)| == e - s + 1
  {
    var pages := set p: nat | s <= p <= e :: (a, p);
    if s <= e {
      var fewer := set p: nat | s <= p <= e - 1 :: (a, p);
      PageCount(a, s, e - 1);
      assert pages == fewer + {(a, e)};
    }
  }

  lemma DiscardedNext(ranges: map<RangeId, Range>, ids: seq<RangeId>, id: RangeId)
    requires id in ranges
    ensures Discarded(ranges, ids + [id]) == Discarded(ranges, ids) + PagesOf(ranges[id])
  {
    var all := ids + [id];
    forall l | l in Discarded(ranges, ids) + PagesOf(ranges[id])
      ensures l in Discarded(ranges, all)
    {
      if l in Discarded(ranges, ids) {
        var i, p: nat :| 0 <= i < |ids| && ids[i] in ranges && ranges[ids[i]].start <= p <= ranges[ids[i]].end && l == (ranges[ids[i]].area, p);
        assert all[i] == ids[i];
      } else {
        assert all[|ids|] == id;
      }
    }
  }

  /** Ranges of the shared list have no page in common, so that their pages can be counted range by range. */
  lemma {:induction false} DiscardedCount(areas: map<AreaId, seq<RangeId>>, ranges: map<RangeId, Range>, lru: seq<RangeId>, count: int, k: nat)
    requires Inv(areas, ranges, lru, count) && k <= |lru|
    ensures |Discarded(ranges, lru[..k])| == Pages(lru[..k], ranges)
  {
    if k > 0 {
      var rest, id := lru[..k - 1], lru[k - 1];
      DiscardedCount(areas, ranges, lru, count, k - 1);
      assert lru[..k] == rest + [id];
      PagesSplit(rest, [id], ranges);
      DiscardedNext(ranges, rest, id);
      RangesApart(areas, ranges, lru, count, k - 1);
      assert Discarded(ranges, rest) !! PagesOf(ranges[id]);
      PageCount(ranges[id].area, ranges[id].start, ranges[id].end);
    }
  }

  lemma RangesApart(areas: map<AreaId, seq<RangeId>>, ranges: map<RangeId, Range>, lru: seq<RangeId>, count: int, k: nat)
    requires Inv(areas, ranges, lru, count) && k < |lru|
    ensures lru[k] in ranges && ranges[lru[k]].start <= ranges[lru[k]].end
    ensures forall i :: 0 <= i < k && ranges[lru[i]].area == ranges[lru[k]].area ==>
              ranges[lru[i]].end < ranges[lru[k]].start || ranges[lru[k]].end < ranges[lru[i]].start
  {
    var a := ranges[lru[k]].area;
    assert RangeAt(areas, ranges, lru, lru[k]) && AreaAt(areas, ranges, a);
    var y := Position(areas[a], lru[k]);
    assert EntryOk(ranges, a, areas[a], y);
    forall i | 0 <= i < k && ranges[lru[i]].area == a
      ensures ranges[lru[i]].end < ranges[lru[k]].start || ranges[lru[k]].end < ranges[lru[i]].start
    {
      assert RangeAt(areas, ranges, lru, lru[i]);
      var x := Position(areas[a], lru[i]);
      assert if x < y then Above(ranges, areas[a], x, y) else Above(ranges, areas[a], y, x);
    }
  }

  /** Purging keeps every range where it is, and marks exactly the pages of the ranges purged. */
  lemma {:induction false} PurgeAllPages(ranges: map<RangeId, Range>, ids: seq<RangeId>, list: seq<RangeId>, p: nat)
    requires forall i :: 0 <= i < |ids| ==> ids[i] in ranges
    ensures PurgeAll(ranges, ids).Keys == ranges.Keys
    ensures forall id :: id in ranges ==> PurgeAll(ranges, ids)[id] == ranges[id].(purged := ranges[id].purged || id in ids)
    ensures Covers(PurgeAll(ranges, ids), list, p) == Covers(ranges, list, p)
    ensures Marks(PurgeAll(ranges, ids), list, p) <==>
            Marks(ranges, list, p) || exists id :: id in ids && id in list && Has(ranges[id], p)
  {
    if ids != [] {
      var rest, id := ids[..|ids| - 1], ids[|ids| - 1];
      assert ids == rest + [id];
      PurgeAllPages(ranges, rest, list, p);
      PurgePages(PurgeAll(ranges, rest), list, id, p);
    }
  }

  /** How many ranges one scan may purge: the counter is decremented before it is compared, and wraps. */
  function ScanLimit(nr: nat): (k: nat)
    ensures k > 0
  {
    if nr == 0 then 0x1_0000_0000_0000_0000 else nr
  }

  class Ashmem {
    var areas: map<AreaId, seq<RangeId>>
    var ranges: map<RangeId, Range>
    var lru: seq<RangeId>
    var lruCount: int
    /** The name the next range gets. */
    var next: RangeId
    /** Pages whose contents were discarded and not yet reported to their user. */
    ghost var lost: set<(AreaId, nat)>

    ghost predicate Valid()
      reads this
    {
      && Inv(areas, ranges, lru, lruCount)
      && (forall id :: id in ranges ==> id < next)
    }

    /** Every discarded page is in a range marked as purged. */
    ghost predicate Tracks()
      reads this
    {
      Tracked(areas, ranges, lost)
    }

    constructor ()
      ensures Valid() && Tracks() && areas == map[] && ranges == map[] && lru == [] && lost == {}
    {
      areas, ranges, lru, lruCount, next, lost := map[], map[], [], 0, 0, {};
    }

    method Open(a: AreaId)
      requires Valid() && a !in areas
      modifies this
      ensures Valid() && (old(Tracks()) ==> Tracks())
      ensures areas == old(areas)[a := []] && ranges == old(ranges) && lru == old(lru) && lruCount == old(lruCount)
      ensures lost == old(lost)
    {
      areas := areas[a := []];
      forall b | b in areas
        ensures AreaAt(areas, ranges, b)
      {
        if b != a {
          assert AreaAt(old(areas), ranges, b);
        }
      }
      forall id | id in ranges
        ensures RangeAt(areas, ranges, lru, id)
      {
        assert RangeAt(old(areas), ranges, lru, id);
      }
    }

    // --- one range -----------------------------------------------------------

    method RangeDel(a: AreaId, i: nat)
      requires Valid() && a in areas && i < |areas[a]| && EntryOk(ranges, a, areas[a], i)
      modifies this
      ensures Valid() && Elsewhere(a, old(areas), old(ranges), areas, ranges)
      ensures areas == old(areas)[a := RemoveAt(old(areas[a]), i)] && ranges == old(ranges) - {old(areas[a][i])}
      ensures lru == Dropped(old(lru), old(areas[a][i])) && next == old(next) && lost == old(lost)
    {
      DelKeeps(areas, ranges, lru, lruCount, a, i);
      var id := areas[a][i];
      var r := ranges[id];
      areas := areas[a := RemoveAt(areas[a], i)];
      lru := Dropped(lru, id);
      lruCount := if r.purged then lruCount else lruCount - Size(r);
      ranges := ranges - {id};
    }

    method RangeShrink(a: AreaId, i: nat, s: nat, e: nat)
      requires Valid() && a in areas && i < |areas[a]| && EntryOk(ranges, a, areas[a], i)
      requires ranges[areas[a][i]].start <= s <= e <= ranges[areas[a][i]].end
      modifies this
      ensures Valid() && Elsewhere(a, old(areas), old(ranges), areas, ranges)
      ensures areas == old(areas) && ranges == Resized(old(ranges), areas[a][i], s, e)
      ensures lru == old(lru) && next == old(next) && lost == old(lost)
    {
      ShrinkKeeps(areas, ranges, lru, lruCount, a, i, s, e);
      var r := ranges[areas[a][i]];
      ranges := Resized(ranges, areas[a][i], s, e);
      if !r.purged {
        lruCount := lruCount - (Size(r) - (e - s + 1));
      }
    }

    /** A high range before position `i`, unless there is no memory for it. */
    method RangeAlloc(a: AreaId, i: nat, purged: bool, s: nat, e: nat, memory: bool) returns (ok: bool)
      requires Valid() && a in areas && s <= e && Gap(ranges, areas[a], i, s, e)
      modifies this
      ensures Valid() && Elsewhere(a, old(areas), old(ranges), areas, ranges) && ok == memory && lost == old(lost)
      ensures !ok ==> areas == old(areas) && ranges == old(ranges) && lru == old(lru) && next == old(next)
      ensures ok ==> areas == old(areas)[a := With(old(areas[a]), i, old(next))]
      ensures ok ==> ranges == old(ranges)[old(next) := Range(a, s, e, purged)]
      ensures ok ==> lru == if purged then old(lru) else old(lru) + [old(next)]
    {
      if memory {
        var r := Range(a, s, e, purged);
        AddKeeps(areas, ranges, lru, lruCount, a, i, next, r);
        areas := areas[a := With(areas[a], i, next)];
        ranges := ranges[next := r];
        if !purged {
          lru := lru + [next];
          lruCount := lruCount + Size(r);
        }
        next := next + 1;
      }
      ok := memory;
    }

    // --- the user's requests -------------------------------------------------

    /** What pinning has done so far: pages only leave, and what stays keeps its mark. */
    static ghost predicate Narrowed(r0: map<RangeId, Range>, l0: seq<RangeId>, r: map<RangeId, Range>, l: seq<RangeId>,
                                    s: nat, e: nat, exact: bool)
    {
      && (forall p: nat :: Covers(r, l, p) ==> Covers(r0, l0, p))
      && (forall p: nat :: Covers(r0, l0, p) && !(s <= p <= e) && (exact || !CutTail(r0, l0, s, e, p)) ==> Covers(r, l, p))
      && (forall p: nat :: Marks(r, l, p) <==> Marks(r0, l0, p) && Covers(r, l, p))
    }

    /** No range reaches beyond `s`..`e` on both sides. */
    static predicate NoneAround(ranges: map<RangeId, Range>, list: seq<RangeId>, s: nat, e: nat) {
      forall id :: id in list && id in ranges ==> !(ranges[id].start < s && e < ranges[id].end)
    }

    static ghost predicate TailGone(r0: map<RangeId, Range>, l0: seq<RangeId>, r: map<RangeId, Range>, l: seq<RangeId>, s: nat, e: nat) {
      forall p: nat :: CutTail(r0, l0, s, e, p) ==> !Covers(r, l, p)
    }

    /** Two steps of pinning are one, once no range reaches beyond the request. */
    static lemma NarrowedOn(r0: map<RangeId, Range>, l0: seq<RangeId>, r1: map<RangeId, Range>, l1: seq<RangeId>,
                            r2: map<RangeId, Range>, l2: seq<RangeId>, s: nat, e: nat, exact: bool)
      requires Narrowed(r0, l0, r1, l1, s, e, exact) && Narrowed(r1, l1, r2, l2, s, e, exact) && NoneAround(r1, l1, s, e)
      ensures Narrowed(r0, l0, r2, l2, s, e, exact)
      ensures TailGone(r0, l0, r1, l1, s, e) ==> TailGone(r0, l0, r2, l2, s, e)
    {
      assert forall p: nat :: !CutTail(r1, l1, s, e, p);
    }

    /** Where a range shares a page with the request, no other one reaches beyond it. */
    static lemma OnlyMet(ranges: map<RangeId, Range>, a: AreaId, list: seq<RangeId>, i: nat, s: nat, e: nat)
      requires ListOk(ranges, a, list) && i < |list| && EntryOk(ranges, a, list, i) && Meets(ranges[list[i]], s, e) && s <= e
      ensures forall id :: id in list && id in ranges && ranges[id].start <= s && e <= ranges[id].end ==> id == list[i]
    {
      MeetsIsIntersection(ranges[list[i]], s, e);
      forall id | id in list && id in ranges && ranges[id].start <= s && e <= ranges[id].end
        ensures id == list[i]
      {
        Order(ranges, a, list, i, Position(list, id));
      }
    }

    /** Pages outside the range `x` stay covered. */
    static ghost predicate Spared(r0: map<RangeId, Range>, l0: seq<RangeId>, x: Range, r: map<RangeId, Range>, l: seq<RangeId>) {
      forall p: nat :: !Has(x, p) && Covers(r0, l0, p) ==> Covers(r, l, p)
    }

    static predicate Clear(r: Range, s: nat, e: nat) {
      e < r.start || r.end < s
    }

    /** The first `i` ranges keep clear of `s`..`e`. */
    static predicate Passed(ranges: map<RangeId, Range>, list: seq<RangeId>, i: nat, s: nat, e: nat) {
      i <= |list| && forall j :: 0 <= j < i ==> list[j] in ranges && Clear(ranges[list[j]], s, e)
    }

    static lemma AboveFollowing(ranges: map<RangeId, Range>, a: AreaId, list: seq<RangeId>, i: nat, j: nat)
      requires ListOk(ranges, a, list) && j < |list| && i <= j
      ensures EntryOk(ranges, a, list, i) && EntryOk(ranges, a, list, j) && ranges[list[j]].end <= ranges[list[i]].end
    {
      assert EntryOk(ranges, a, list, i) && EntryOk(ranges, a, list, j);
      assert i < j ==> Above(ranges, list, i, j);
    }

    static lemma PassedUncovered(ranges: map<RangeId, Range>, a: AreaId, list: seq<RangeId>, i: nat, s: nat, e: nat)
      requires ListOk(ranges, a, list) && Passed(ranges, list, i, s, e)
      requires i < |list| && EntryOk(ranges, a, list, i) ==> ranges[list[i]].end < s
      ensures forall p: nat :: s <= p <= e ==> !Covers(ranges, list, p)
    {
      forall p: nat | s <= p <= e
        ensures !Covers(ranges, list, p)
      {
        if Covers(ranges, list, p) {
          var j := Found(ranges, a, list, p);
          assert i <= j;
          AboveFollowing(ranges, a, list, i, j);
        }
      }
    }

    static lemma EntryMarks(ranges: map<RangeId, Range>, a: AreaId, list: seq<RangeId>, i: nat, p: nat)
      requires ListOk(ranges, a, list) && i < |list| && EntryOk(ranges, a, list, i) && Has(ranges[list[i]], p)
      ensures Covers(ranges, list, p) && (Marks(ranges, list, p) <==> ranges[list[i]].purged)
    {
      assert Covers(ranges, list, p);
      var j := Found(ranges, a, list, p);
      Order(ranges, a, list, i, j);
    }

    /** What the walk knows after one more range `i`, which it met and pinned. */
    static lemma PinnedOne(r0: map<RangeId, Range>, l0: seq<RangeId>, r: map<RangeId, Range>, a: AreaId, l: seq<RangeId>,
                           i: nat, s: nat, e: nat, exact: bool)
      requires ListOk(r, a, l) && i < |l| && EntryOk(r, a, l, i) && Meets(r[l[i]], s, e) && s <= e
      requires Narrowed(r0, l0, r, l, s, e, exact)
      ensures r[l[i]].purged ==> AnyMarked(r0, l0, s, e)
      ensures !r[l[i]].purged ==> forall p: nat :: Has(r[l[i]], p) ==> !Marks(r, l, p)
    {
      MeetsIsIntersection(r[l[i]], s, e);
      forall p: nat | Has(r[l[i]], p)
        ensures Covers(r, l, p) && (Marks(r, l, p) <==> r[l[i]].purged)
      {
        EntryMarks(r, a, l, i, p);
      }
      if r[l[i]].purged {
        var p: nat :| Has(r[l[i]], p) && s <= p <= e;
        assert Marks(r, l, p);
      }
    }

    /** The lower part shrunk and the upper part added: exactly the middle is gone. */
    static lemma MiddlePages(ranges: map<RangeId, Range>, a: AreaId, list: seq<RangeId>, i: nat, s: nat, e: nat, id: RangeId)
      requires ListOk(ranges, a, list) && i < |list| && EntryOk(ranges, a, list, i) && id !in ranges
      requires ranges[list[i]].start < s <= e < ranges[list[i]].end && Passed(ranges, list, i, s, e)
      ensures var r := ranges[list[i]];
              var low := Resized(ranges, list[i], r.start, s - 1);
              var both := low[id := Range(a, e + 1, r.end, r.purged)];
              && ListOk(low, a, list) && Gap(low, list, i, e + 1, r.end)
              && Passed(low, list, i + 1, s, e) && Passed(both, With(list, i, id), i + 2, s, e)
              && Narrowed(ranges, list, low, list, s, e, false) && Narrowed(ranges, list, both, With(list, i, id), s, e, true)
              && Spared(ranges, list, r, low, list) && Spared(ranges, list, r, both, With(list, i, id))
    {
      var r := ranges[list[i]];
      var low := Resized(ranges, list[i], r.start, s - 1);
      var high := Range(a, e + 1, r.end, r.purged);
      ShrinkList(ranges, a, list, i, r.start, s - 1);
      assert Gap(low, list, i, e + 1, r.end) by {
        forall k | 0 <= k < |list|
          ensures list[k] in low && (k < i ==> r.end < low[list[k]].start) && (i <= k ==> low[list[k]].end < e + 1)
        {
          assert EntryOk(low, a, list, k);
          if k != i {
            Once(ranges, a, list, i, k);
          }
          assert k < i ==> Above(ranges, list, k, i);
          assert i < k ==> Above(ranges, list, i, k);
        }
      }
      forall p: nat
        ensures Covers(low, list, p) <==> Covers(ranges, list, p) && (Has(r, p) ==> p < s)
        ensures Marks(low, list, p) <==> Marks(ranges, list, p) && (Has(r, p) ==> p < s)
        ensures Covers(low[id := high], With(list, i, id), p) <==> Covers(low, list, p) || Has(high, p)
        ensures Marks(low[id := high], With(list, i, id), p) <==> Marks(low, list, p) || (r.purged && Has(high, p))
        ensures Has(r, p) ==> Covers(ranges, list, p) && (Marks(ranges, list, p) <==> r.purged)
      {
        ShrinkPages(ranges, a, list, i, r.start, s - 1, p);
        AddPages(low, a, list, i, id, high, p);
        if Has(r, p) {
          EntryMarks(ranges, a, list, i, p);
        }
      }
    }

    /** Afterwards no range reaches beyond the request, and without the upper part none of it is covered. */
    static lemma MiddleAround(ranges: map<RangeId, Range>, a: AreaId, list: seq<RangeId>, i: nat, s: nat, e: nat, id: RangeId)
      requires ListOk(ranges, a, list) && i < |list| && EntryOk(ranges, a, list, i) && id !in ranges
      requires ranges[list[i]].start < s <= e < ranges[list[i]].end
      ensures var r := ranges[list[i]];
              var low := Resized(ranges, list[i], r.start, s - 1);
              && NoneAround(low, list, s, e) && NoneAround(low[id := Range(a, e + 1, r.end, r.purged)], With(list, i, id), s, e)
              && TailGone(ranges, list, low, list, s, e)
    {
      var r := ranges[list[i]];
      var low := Resized(ranges, list[i], r.start, s - 1);
      OnlyMet(ranges, a, list, i, s, e);
      forall p: nat
        ensures Covers(low, list, p) <==> Covers(ranges, list, p) && (Has(r, p) ==> p < s)
      {
        ShrinkPages(ranges, a, list, i, r.start, s - 1, p);
      }
    }

    /** The other three cases, as one: the range is deleted, or keeps only pages `s2` to `e2` outside the request. */
    static lemma DelNarrows(ranges: map<RangeId, Range>, a: AreaId, list: seq<RangeId>, i: nat, s: nat, e: nat,
                            exact: bool)
      requires ListOk(ranges, a, list) && i < |list| && EntryOk(ranges, a, list, i)
      requires s <= ranges[list[i]].start && ranges[list[i]].end <= e && Passed(ranges, list, i, s, e) && s <= e
      ensures NoneAround(ranges - {list[i]}, RemoveAt(list, i), s, e) && forall p: nat :: !CutTail(ranges, list, s, e, p)
      ensures Narrowed(ranges, list, ranges - {list[i]}, RemoveAt(list, i), s, e, exact)
      ensures Spared(ranges, list, ranges[list[i]], ranges - {list[i]}, RemoveAt(list, i))
      ensures Passed(ranges - {list[i]}, RemoveAt(list, i), i, s, e)
    {
      OnlyMet(ranges, a, list, i, s, e);
      forall p: nat
        ensures Covers(ranges - {list[i]}, RemoveAt(list, i), p) <==> Covers(ranges, list, p) && !Has(ranges[list[i]], p)
        ensures Marks(ranges - {list[i]}, RemoveAt(list, i), p) <==> Marks(ranges, list, p) && !Has(ranges[list[i]], p)
        ensures Marks(ranges, list, p) ==> Covers(ranges, list, p)
      {
        DelPages(ranges, a, list, i, p);
      }
      forall j | 0 <= j < i
        ensures list[j] != list[i]
      {
        Once(ranges, a, list, i, j);
      }
    }

    static lemma ShrinkNarrows(ranges: map<RangeId, Range>, a: AreaId, list: seq<RangeId>, i: nat, s: nat, e: nat,
                               s2: nat, e2: nat, exact: bool)
      requires ListOk(ranges, a, list) && i < |list| && EntryOk(ranges, a, list, i) && Passed(ranges, list, i, s, e)
      requires ranges[list[i]].start <= s2 <= e2 <= ranges[list[i]].end
      requires forall p: nat :: Has(ranges[list[i]], p) ==> (s2 <= p <= e2 <==> !(s <= p <= e))
      requires (e < s2 || e2 < s) && s <= e && Meets(ranges[list[i]], s, e) && !(ranges[list[i]].start < s && e < ranges[list[i]].end)
      ensures NoneAround(Resized(ranges, list[i], s2, e2), list, s, e) && forall p: nat :: !CutTail(ranges, list, s, e, p)
      ensures Narrowed(ranges, list, Resized(ranges, list[i], s2, e2), list, s, e, exact)
      ensures Spared(ranges, list, ranges[list[i]], Resized(ranges, list[i], s2, e2), list)
      ensures Passed(Resized(ranges, list[i], s2, e2), list, i + 1, s, e)
    {
      OnlyMet(ranges, a, list, i, s, e);
      var r' := Resized(ranges, list[i], s2, e2);
      forall p: nat
        ensures Covers(r', list, p) <==> Covers(ranges, list, p) && (Has(ranges[list[i]], p) ==> s2 <= p <= e2)
        ensures Marks(r', list, p) <==> Marks(ranges, list, p) && (Has(ranges[list[i]], p) ==> s2 <= p <= e2)
        ensures Marks(ranges, list, p) ==> Covers(ranges, list, p)
      {
        ShrinkPages(ranges, a, list, i, s2, e2, p);
      }
    }

    /** Takes `s`..`e` out of one range it meets: the walk goes on `skip` places further down. */
    method PinEntry(a: AreaId, i: nat, s: nat, e: nat, memory: bool) returns (skip: nat)
      requires Valid() && a in areas && s <= e && i < |areas[a]| && EntryOk(ranges, a, areas[a], i)
      requires Meets(ranges[areas[a][i]], s, e) && Passed(ranges, areas[a], i, s, e)
      modifies this
      ensures Valid() && Elsewhere(a, old(areas), old(ranges), areas, ranges) && lost == old(lost)
      ensures Narrowed(old(ranges), old(areas[a]), ranges, areas[a], s, e, memory)
      ensures Spared(old(ranges), old(areas[a]), old(ranges[areas[a][i]]), ranges, areas[a])
      ensures NoneAround(ranges, areas[a], s, e) && (memory || TailGone(old(ranges), old(areas[a]), ranges, areas[a], s, e))
      ensures Passed(ranges, areas[a], i + skip, s, e)
      ensures |areas[a]| - (i + skip) == old(|areas[a]|) - i - 1
    {
      var r := ranges[areas[a][i]];
      assert AreaAt(areas, ranges, a);
      ghost var (r0, list) := (ranges, areas[a]);
      if s <= r.start && r.end <= e {
        DelNarrows(ranges, a, list, i, s, e, memory);
        RangeDel(a, i);
        skip := 0;
        assert ranges == r0 - {list[i]} && areas[a] == RemoveAt(list, i);
      } else if s <= r.start || r.end <= e {
        var (s2, e2) := if s <= r.start then (e + 1, r.end) else (r.start, s - 1);
        ShrinkNarrows(ranges, a, list, i, s, e, s2, e2, memory);
        RangeShrink(a, i, s2, e2);
        skip := 1;
        assert ranges == Resized(r0, list[i], s2, e2) && areas[a] == list;
      } else {
        skip := PinMiddle(a, i, s, e, memory);
      }
    }

    /** A hole in the middle of a range. */
    method PinMiddle(a: AreaId, i: nat, s: nat, e: nat, memory: bool) returns (skip: nat)
      requires Valid() && a in areas && i < |areas[a]| && EntryOk(ranges, a, areas[a], i)
      requires ranges[areas[a][i]].start < s <= e < ranges[areas[a][i]].end && Passed(ranges, areas[a], i, s, e)
      modifies this
      ensures Valid() && Elsewhere(a, old(areas), old(ranges), areas, ranges) && lost == old(lost)
      ensures Narrowed(old(ranges), old(areas[a]), ranges, areas[a], s, e, memory)
      ensures Spared(old(ranges), old(areas[a]), old(ranges[areas[a][i]]), ranges, areas[a])
      ensures NoneAround(ranges, areas[a], s, e) && (memory || TailGone(old(ranges), old(areas[a]), ranges, areas[a], s, e))
      ensures Passed(ranges, areas[a], i + skip, s, e)
      ensures |areas[a]| - (i + skip) == old(|areas[a]|) - i - 1
    {
      assert AreaAt(areas, ranges, a);
      CutWorks(ranges, a, areas[a], i, s, e, next, memory);
      CutRange(a, i, s, e, memory);
      skip := if memory then 2 else 1;
    }

    /** The range at `i` keeps its lower part, and its upper part becomes a range of its own if there is memory. */
    method CutRange(a: AreaId, i: nat, s: nat, e: nat, memory: bool)
      requires Valid() && a in areas && i < |areas[a]| && EntryOk(ranges, a, areas[a], i)
      requires ranges[areas[a][i]].start < s <= e < ranges[areas[a][i]].end
      requires Gap(Resized(ranges, areas[a][i], ranges[areas[a][i]].start, s - 1), areas[a], i, e + 1, ranges[areas[a][i]].end)
      modifies this
      ensures Valid() && Elsewhere(a, old(areas), old(ranges), areas, ranges) && lost == old(lost)
      ensures (ranges, areas[a]) == CutUp(old(ranges), a, old(areas[a]), i, s, e, old(next), memory)
    {
      var r := ranges[areas[a][i]];
      RangeShrink(a, i, r.start, s - 1);
      label shrunk:
      var ok := RangeAlloc(a, i, r.purged, e + 1, r.end, memory);
      ElsewhereTransitive(a, old(areas), old(ranges), old@shrunk(areas), old@shrunk(ranges), areas, ranges);
    }

    /** The ranges and the list once the range at `i` has been cut, with an upper part if there is memory for it. */
    static function CutUp(ranges: map<RangeId, Range>, a: AreaId, list: seq<RangeId>, i: nat, s: nat, e: nat, id: RangeId,
                          memory: bool): (map<RangeId, Range>, seq<RangeId>)
      requires i < |list| && list[i] in ranges && 0 < s
    {
      var r := ranges[list[i]];
      var low := Resized(ranges, list[i], r.start, s - 1);
      if memory then (low[id := Range(a, e + 1, r.end, r.purged)], With(list, i, id)) else (low, list)
    }

    static lemma CutWorks(ranges: map<RangeId, Range>, a: AreaId, list: seq<RangeId>, i: nat, s: nat, e: nat, id: RangeId, memory: bool)
      requires ListOk(ranges, a, list) && i < |list| && EntryOk(ranges, a, list, i) && id !in ranges
      requires ranges[list[i]].start < s <= e < ranges[list[i]].end && Passed(ranges, list, i, s, e)
      ensures var r := ranges[list[i]];
              var low := Resized(ranges, list[i], r.start, s - 1);
              ListOk(low, a, list) && Gap(low, list, i, e + 1, r.end)
      ensures var (cut, l) := CutUp(ranges, a, list, i, s, e, id, memory);
              && Narrowed(ranges, list, cut, l, s, e, memory) && Spared(ranges, list, ranges[list[i]], cut, l)
              && NoneAround(cut, l, s, e) && (memory || TailGone(ranges, list, cut, l, s, e))
              && Passed(cut, l, if memory then i + 2 else i + 1, s, e)
    {
      MiddlePages(ranges, a, list, i, s, e, id);
      MiddleAround(ranges, a, list, i, s, e, id);
    }

    /**
     Pins pages `s` to `e`.  The answer says whether one of them has been
     purged since it was unpinned.  With no memory for the upper half of a
     range cut in two, that half is pinned as well.
     */
    method Pin(a: AreaId, s: nat, e: nat, memory: bool) returns (wasPurged: bool)
      requires Valid() && a in areas && s <= e
      modifies this
      ensures Valid() && Elsewhere(a, old(areas), old(ranges), areas, ranges)
      ensures Pins(old(ranges), old(areas[a]), ranges, areas[a], s, e, memory)
      ensures wasPurged <==> old(AnyMarked(ranges, areas[a], s, e))
      ensures old(Tracks()) && !wasPurged ==> forall p :: s <= p <= e ==> (a, p) !in old(lost)
      ensures lost == old(lost) - PagesOf(Range(a, s, e, true))
      ensures old(Tracks()) ==>
                (Tracks() <==> memory || forall p: nat :: (a, p) in lost ==> !CutTail(old(ranges), old(areas[a]), s, e, p))
    {
      wasPurged := PinWalk(a, s, e, memory);
      lost := lost - PagesOf(Range(a, s, e, true));
      if old(Tracks()) {
        PinTracks(old(areas), old(ranges), areas, ranges, a, s, e, memory, old(lost), lost);
      }
    }

    /** What pinning achieves: the pages asked for go, and without memory the upper part of a range that was to be cut; all others keep their marks. */
    static ghost predicate Pins(r0: map<RangeId, Range>, l0: seq<RangeId>, r: map<RangeId, Range>, l: seq<RangeId>,
                                s: nat, e: nat, memory: bool)
    {
      && (forall p: nat :: Covers(r, l, p) <==> Covers(r0, l0, p) && !(s <= p <= e) && (memory || !CutTail(r0, l0, s, e, p)))
      && (forall p: nat :: Marks(r, l, p) <==> Marks(r0, l0, p) && Covers(r, l, p))
    }

    /** The walk over the list. */
    method PinWalk(a: AreaId, s: nat, e: nat, memory: bool) returns (wasPurged: bool)
      requires Valid() && a in areas && s <= e
      modifies this
      ensures Valid() && Elsewhere(a, old(areas), old(ranges), areas, ranges) && lost == old(lost)
      ensures Pins(old(ranges), old(areas[a]), ranges, areas[a], s, e, memory)
      ensures wasPurged <==> old(AnyMarked(ranges, areas[a], s, e))
    {
      wasPurged := false;
      var i: nat := 0;
      ghost var changed := false;
      assert AreaAt(areas, ranges, a);
      while i < |areas[a]|
        invariant Valid() && Elsewhere(a, old(areas), old(ranges), areas, ranges) && lost == old(lost)
        invariant Passed(ranges, areas[a], i, s, e) && AreaAt(areas, ranges, a)
        invariant Narrowed(old(ranges), old(areas[a]), ranges, areas[a], s, e, memory)
        invariant !changed ==> ranges == old(ranges) && areas == old(areas)
        invariant changed ==>
                    && NoneAround(ranges, areas[a], s, e)
                    && (memory || TailGone(old(ranges), old(areas[a]), ranges, areas[a], s, e))
        invariant wasPurged ==> old(AnyMarked(ranges, areas[a], s, e))
        invariant !wasPurged ==> forall p: nat :: s <= p <= e && old(Marks(ranges, areas[a], p)) ==> Covers(ranges, areas[a], p)
        decreases |areas[a]| - i
      {
        assert EntryOk(ranges, a, areas[a], i);
        var r := ranges[areas[a][i]];
        if r.end < s {
          break;
        }
        if Meets(r, s, e) {
          PinnedOne(old(ranges), old(areas[a]), ranges, a, areas[a], i, s, e, memory);
          wasPurged := wasPurged || r.purged;
          ghost var (r1, l1) := (ranges, areas[a]);
          var skip := PinEntry(a, i, s, e, memory);
          if changed {
            NarrowedOn(old(ranges), old(areas[a]), r1, l1, ranges, areas[a], s, e, memory);
          }
          changed := true;
          i := i + skip;
          assert AreaAt(areas, ranges, a);
        } else {
          i := i + 1;
        }
      }
      PassedUncovered(ranges, a, areas[a], i, s, e);
      if !changed {
        TailCovers(ranges, areas[a], s, e);
      }
    }

    /** A range that reaches beyond the request covers it. */
    static lemma TailCovers(ranges: map<RangeId, Range>, list: seq<RangeId>, s: nat, e: nat)
      requires s <= e
      ensures forall p: nat :: CutTail(ranges, list, s, e, p) ==> Covers(ranges, list, s)
    {
      forall p: nat | CutTail(ranges, list, s, e, p)
        ensures Covers(ranges, list, s)
      {
        var id :| id in list && id in ranges && ranges[id].start < s && e < ranges[id].end && e < p <= ranges[id].end;
        assert Has(ranges[id], s);
      }
    }

    static lemma PinTracks(areas0: map<AreaId, seq<RangeId>>, ranges0: map<RangeId, Range>, areas: map<AreaId, seq<RangeId>>,
                           ranges: map<RangeId, Range>, a: AreaId, s: nat, e: nat, memory: bool,
                           lost0: set<(AreaId, nat)>, lost: set<(AreaId, nat)>)
      requires a in areas0 && Tracked(areas0, ranges0, lost0) && Elsewhere(a, areas0, ranges0, areas, ranges)
      requires forall b {:trigger AreaAt(areas0, ranges0, b)} :: b in areas0 ==> AreaAt(areas0, ranges0, b)
      requires lost == lost0 - PagesOf(Range(a, s, e, true)) && Pins(ranges0, areas0[a], ranges, areas[a], s, e, memory)
      ensures Tracked(areas, ranges, lost) <==> memory || forall p: nat :: (a, p) in lost ==> !CutTail(ranges0, areas0[a], s, e, p)
    {
      assert forall p: nat :: (a, p) in lost ==> !(s <= p <= e);
      assert forall p: nat :: Marks(ranges0, areas0[a], p) ==> Covers(ranges0, areas0[a], p);
      if memory || forall p: nat :: (a, p) in lost ==> !CutTail(ranges0, areas0[a], s, e, p) {
        TrackedKept(areas0, ranges0, areas, ranges, a, lost0, lost);
      } else {
        var p: nat :| (a, p) in lost && CutTail(ranges0, areas0[a], s, e, p);
        assert !Marks(ranges, areas[a], p);
      }
    }

    /**
     What unpinning has done so far: the ranges that met the request are gone,
     and `s2`..`e2` is the request grown by their pages.
     */
    static ghost predicate Grown(r0: map<RangeId, Range>, l0: seq<RangeId>, r: map<RangeId, Range>, l: seq<RangeId>,
                                 s: nat, e: nat, s2: nat, e2: nat, purged: bool)
    {
      && s2 <= s <= e <= e2
      && (forall p: nat :: Covers(r, l, p) || s2 <= p <= e2 <==> Covers(r0, l0, p) || s <= p <= e)
      && (forall p: nat :: s2 <= p <= e2 ==> Joined(r0, l0, s, e, p))
      && (forall p: nat :: s2 <= p <= e2 && Covers(r, l, p) ==> s <= p <= e)
      && (forall p: nat :: Marks(r, l, p) ==> Marks(r0, l0, p))
      && (forall p: nat :: Marks(r0, l0, p) ==> Marks(r, l, p) || (purged && s2 <= p <= e2))
      && (purged ==> AnyMarked(r0, l0, s, e))
      && (forall id :: id in l && id in r ==> id in l0 && id in r0 && r0[id] == r[id])
      && (forall id :: id in l0 && id in r0 ==> (id in l && id in r) || (s2 <= r0[id].start && r0[id].end <= e2))
    }

    static lemma GrownFirst(r: map<RangeId, Range>, l: seq<RangeId>, s: nat, e: nat)
      requires s <= e
      ensures Grown(r, l, r, l, s, e, s, e, false)
    {
    }

    /** Some page of `s`..`e` is not covered. */
    static ghost predicate Punctured(r: map<RangeId, Range>, l: seq<RangeId>, s: nat, e: nat) {
      exists w: nat :: s <= w <= e && !Covers(r, l, w)
    }

    static lemma Unpunctured(r: map<RangeId, Range>, a: AreaId, l: seq<RangeId>, i: nat, s: nat, e: nat)
      requires i < |l| && EntryOk(r, a, l, i) && r[l[i]].start <= s && e <= r[l[i]].end
      ensures !Punctured(r, l, s, e)
    {
      assert forall w: nat :: s <= w <= e ==> Has(r[l[i]], w) && Covers(r, l, w);
    }

    static ghost predicate AllAbove(ranges: map<RangeId, Range>, list: seq<RangeId>, i: nat, e: nat) {
      i <= |list| && forall j :: 0 <= j < i ==> list[j] in ranges && e < ranges[list[j]].start
    }

    static lemma GrownMore(r0: map<RangeId, Range>, l0: seq<RangeId>, r: map<RangeId, Range>, a: AreaId, l: seq<RangeId>,
                           s: nat, e: nat, s2: nat, e2: nat, purged: bool, i: nat, s3: nat, e3: nat)
      requires Grown(r0, l0, r, l, s, e, s2, e2, purged) && ListOk(r, a, l)
      requires i < |l| && EntryOk(r, a, l, i) && Meets(r[l[i]], s2, e2)
      requires s3 == (if r[l[i]].start < s2 then r[l[i]].start else s2)
      requires e3 == (if r[l[i]].end > e2 then r[l[i]].end else e2)
      ensures Grown(r0, l0, r - {l[i]}, RemoveAt(l, i), s, e, s3, e3, purged || r[l[i]].purged)
      ensures Punctured(r - {l[i]}, RemoveAt(l, i), s3, e3)
    {
      var x := r[l[i]];
      var r', l' := r - {l[i]}, RemoveAt(l, i);
      MeetsIsIntersection(x, s2, e2);
      DelList(r, a, l, i);
      forall p: nat
        ensures Covers(r', l', p) <==> Covers(r, l, p) && !Has(x, p)
        ensures Marks(r', l', p) <==> Marks(r, l, p) && !Has(x, p)
        ensures Has(x, p) ==> Covers(r, l, p) && (Marks(r, l, p) <==> x.purged)
      {
        DelPages(r, a, l, i, p);
        if Has(x, p) {
          EntryMarks(r, a, l, i, p);
        }
      }
      // The page they share was asked for: the rest of what has been joined is no longer covered.
      var q: nat :| Has(x, q) && s2 <= q <= e2;
      assert s <= q <= e;
      MeetsIsIntersection(x, s, e);
      assert forall p: nat :: s3 <= p <= e3 ==> s2 <= p <= e2 || Has(x, p);
      forall p: nat | s3 <= p <= e3
        ensures Joined(r0, l0, s, e, p)
      {
        if Has(x, p) {
          assert l[i] in l0 && l[i] in r0 && Has(r0[l[i]], p) && Meets(r0[l[i]], s, e);
        }
      }
      assert !Covers(r', l', x.start) && s3 <= x.start <= e3;
      assert x.purged ==> Marks(r0, l0, q);
    }

    /** What unpinning achieves: the pages asked for are covered, and a mark spreads over what was joined with it. */
    static ghost predicate Joins(r0: map<RangeId, Range>, l0: seq<RangeId>, r: map<RangeId, Range>, l: seq<RangeId>, s: nat, e: nat) {
      && (forall p: nat :: Covers(r, l, p) <==> Covers(r0, l0, p) || s <= p <= e)
      && (forall p: nat :: Marks(r, l, p) <==> Marks(r0, l0, p) || (AnyMarked(r0, l0, s, e) && Joined(r0, l0, s, e, p)))
    }

    /** With no memory for the joined range, everything it would have held is pinned. */
    static ghost predicate JoinedLost(r0: map<RangeId, Range>, l0: seq<RangeId>, r: map<RangeId, Range>, l: seq<RangeId>, s: nat, e: nat) {
      && (forall p: nat :: Covers(r, l, p) <==> Covers(r0, l0, p) && !Joined(r0, l0, s, e, p))
      && (forall p: nat :: Marks(r, l, p) <==> Marks(r0, l0, p) && !Joined(r0, l0, s, e, p))
    }

    /** The request lies inside one range: there is nothing to do. */
    static lemma JoinsNothing(r: map<RangeId, Range>, a: AreaId, l: seq<RangeId>, s: nat, e: nat, i: nat)
      requires ListOk(r, a, l) && i < |l| && EntryOk(r, a, l, i) && r[l[i]].start <= s <= e <= r[l[i]].end
      ensures Joins(r, l, r, l, s, e)
    {
      var x := r[l[i]];
      forall p: nat
        ensures Has(x, p) ==> Covers(r, l, p) && (Marks(r, l, p) <==> x.purged)
        ensures Joined(r, l, s, e, p) ==> Has(x, p)
      {
        if Has(x, p) {
          EntryMarks(r, a, l, i, p);
        }
        if Joined(r, l, s, e, p) && !(s <= p <= e) {
          var id :| id in l && id in r && Has(r[id], p) && Meets(r[id], s, e);
          var j := Position(l, id);
          Order(r, a, l, i, j);
        }
      }
    }

    static lemma GapClear(r: map<RangeId, Range>, l: seq<RangeId>, i: nat, s: nat, e: nat)
      requires Gap(r, l, i, s, e)
      ensures forall id :: id in l && id in r ==> Clear(r[id], s, e)
    {
      forall id | id in l && id in r
        ensures Clear(r[id], s, e)
      {
        var j := Position(l, id);
        assert l[j] == id;
      }
    }

    /** Nothing meets the grown request any more, so what was joined is exactly the grown request. */
    static lemma GrownAll(r0: map<RangeId, Range>, a: AreaId, l0: seq<RangeId>, r: map<RangeId, Range>, l: seq<RangeId>,
                          s: nat, e: nat, s2: nat, e2: nat, purged: bool, i: nat)
      requires ListOk(r0, a, l0) && ListOk(r, a, l) && Grown(r0, l0, r, l, s, e, s2, e2, purged) && Gap(r, l, i, s2, e2)
      ensures forall p: nat :: s2 <= p <= e2 ==> !Covers(r, l, p)
      ensures forall p: nat :: Joined(r0, l0, s, e, p) <==> s2 <= p <= e2
      ensures AnyMarked(r0, l0, s, e) <==> purged
      ensures JoinedLost(r0, l0, r, l, s, e)
    {
      forall p: nat | s2 <= p <= e2
        ensures !Covers(r, l, p)
      {
        if Covers(r, l, p) {
          var j := Found(r, a, l, p);
        }
      }
      GapClear(r, l, i, s2, e2);
      forall p: nat | Joined(r0, l0, s, e, p)
        ensures s2 <= p <= e2
      {
      }
      assert forall p: nat :: Marks(r, l, p) ==> Covers(r, l, p);
      assert AnyMarked(r0, l0, s, e) ==> purged by {
        if AnyMarked(r0, l0, s, e) {
          var q: nat :| s <= q <= e && Marks(r0, l0, q);
          assert Marks(r, l, q) ==> Covers(r, l, q);
        }
      }
    }

    static lemma GrownAdded(r0: map<RangeId, Range>, a: AreaId, l0: seq<RangeId>, r: map<RangeId, Range>, l: seq<RangeId>,
                            s: nat, e: nat, s2: nat, e2: nat, purged: bool, i: nat, id: RangeId)
      requires ListOk(r0, a, l0) && ListOk(r, a, l) && Grown(r0, l0, r, l, s, e, s2, e2, purged) && Gap(r, l, i, s2, e2)
      requires id !in r
      ensures Joins(r0, l0, r[id := Range(a, s2, e2, purged)], With(l, i, id), s, e)
    {
      GrownAll(r0, a, l0, r, l, s, e, s2, e2, purged, i);
      var x := Range(a, s2, e2, purged);
      var r', l' := r[id := x], With(l, i, id);
      forall p: nat
        ensures Covers(r', l', p) <==> Covers(r0, l0, p) || s <= p <= e
        ensures Marks(r', l', p) <==> Marks(r0, l0, p) || (AnyMarked(r0, l0, s, e) && Joined(r0, l0, s, e, p))
      {
        AddPages(r, a, l, i, id, x, p);
      }
    }

    /** Some range shares a page with the request. */
    static predicate SomeMet(ranges: map<RangeId, Range>, list: seq<RangeId>, s: nat, e: nat) {
      exists id :: id in list && id in ranges && Meets(ranges[id], s, e)
    }

    /**
     Unpins pages `s` to `e`, joining them with every range they meet.  The
     answer is false only when there is no memory for the joined range.
     */
    method Unpin(a: AreaId, s: nat, e: nat, memory: bool) returns (ok: bool)
      requires Valid() && a in areas && s <= e
      modifies this
      ensures Valid() && Elsewhere(a, old(areas), old(ranges), areas, ranges) && lost == old(lost)
      ensures ok <==> memory || Inside(old(ranges), old(areas[a]), s, e)
      // A request that meets no range becomes one of its own.
      ensures memory && !SomeMet(old(ranges), old(areas[a]), s, e) ==>
                ranges == old(ranges)[old(next) := Range(a, s, e, false)] && lru == old(lru) + [old(next)]
      ensures ok ==> Joins(old(ranges), old(areas[a]), ranges, areas[a], s, e)
      ensures !ok ==> JoinedLost(old(ranges), old(areas[a]), ranges, areas[a], s, e)
      ensures old(Tracks()) ==>
                (Tracks() <==> ok || forall p: nat :: (a, p) in lost ==> !Joined(old(ranges), old(areas[a]), s, e, p))
    {
      assert AreaAt(areas, ranges, a);
      var inside, i, s2, e2, purged := UnpinWalk(a, s, e);
      if inside {
        ok := true;
      } else {
        ok := AddJoined(a, i, purged, s2, e2, memory, old(areas), old(ranges), s, e);
      }
      if old(Tracks()) {
        UnpinTracks(old(areas), old(ranges), areas, ranges, a, s, e, ok, lost);
      }
    }

    /**
     The walk, which starts again after each deletion.  It ends early if one range
     holds all that is asked for, and otherwise at the place for the joined range.
     */
    method UnpinWalk(a: AreaId, s: nat, e: nat) returns (inside: bool, i: nat, s2: nat, e2: nat, purged: bool)
      requires Valid() && a in areas && s <= e && AreaAt(areas, ranges, a)
      modifies this
      ensures Valid() && Elsewhere(a, old(areas), old(ranges), areas, ranges) && lost == old(lost)
      ensures inside <==> Inside(old(ranges), old(areas[a]), s, e)
      ensures inside || !SomeMet(old(ranges), old(areas[a]), s, e) ==>
                areas == old(areas) && ranges == old(ranges) && lru == old(lru) && next == old(next) && s2 == s && e2 == e && !purged
      ensures inside ==> Joins(old(ranges), old(areas[a]), ranges, areas[a], s, e)
      ensures !inside ==> Gap(ranges, areas[a], i, s2, e2) && Grown(old(ranges), old(areas[a]), ranges, areas[a], s, e, s2, e2, purged)
    {
      inside, i, s2, e2, purged := false, 0, s, e, false;
      ghost var deleted := false;
      GrownFirst(ranges, areas[a], s, e);
      while i < |areas[a]|
        invariant Valid() && Elsewhere(a, old(areas), old(ranges), areas, ranges) && lost == old(lost)
        invariant i <= |areas[a]| && AreaAt(areas, ranges, a)
        invariant Grown(old(ranges), old(areas[a]), ranges, areas[a], s, e, s2, e2, purged)
        invariant AllAbove(ranges, areas[a], i, e2)
        invariant !deleted ==>
                    areas == old(areas) && ranges == old(ranges) && lru == old(lru) && next == old(next) && s2 == s && e2 == e && !purged
        invariant deleted ==>
                    && Punctured(ranges, areas[a], s2, e2)
                    && !Inside(old(ranges), old(areas[a]), s, e) && SomeMet(old(ranges), old(areas[a]), s, e)
        decreases |areas[a]|, |areas[a]| - i
      {
        assert EntryOk(ranges, a, areas[a], i);
        var r := ranges[areas[a][i]];
        if r.end < s2 {
          break;
        }
        if r.start <= s2 && e2 <= r.end {
          // Never after a deletion: what was deleted is inside `s2`..`e2` and no longer covered.
          Unpunctured(ranges, a, areas[a], i, s2, e2);
          assert !deleted;
          JoinsNothing(ranges, a, areas[a], s, e, i);
          inside := true;
          return;
        }
        if Meets(r, s2, e2) {
          if !deleted {
            NotInside(ranges, a, areas[a], i, s, e);
          }
          s2, e2, purged := Absorb(a, i, s2, e2, purged, old(ranges), old(areas[a]), s, e);
          i, deleted := 0, true;
        } else {
          i := i + 1;
        }
      }
      GapHere(ranges, a, areas[a], i, s2, e2);
      if !deleted {
        GapClear(ranges, areas[a], i, s, e);
      }
    }

    /** A range that shares a page with the request without holding it all: then none does. */
    static lemma NotInside(ranges: map<RangeId, Range>, a: AreaId, list: seq<RangeId>, i: nat, s: nat, e: nat)
      requires ListOk(ranges, a, list) && i < |list| && EntryOk(ranges, a, list, i) && Meets(ranges[list[i]], s, e) && s <= e
      requires !(ranges[list[i]].start <= s && e <= ranges[list[i]].end)
      ensures !Inside(ranges, list, s, e) && SomeMet(ranges, list, s, e)
    {
      OnlyMet(ranges, a, list, i, s, e);
    }

    /** The range at `i`, which meets `s2`..`e2`, is deleted, and the request grows by its pages. */
    method Absorb(a: AreaId, i: nat, s2: nat, e2: nat, purged: bool, ghost r0: map<RangeId, Range>, ghost l0: seq<RangeId>,
                  ghost s: nat, ghost e: nat) returns (s3: nat, e3: nat, purged': bool)
      requires Valid() && a in areas && i < |areas[a]| && EntryOk(ranges, a, areas[a], i) && Meets(ranges[areas[a][i]], s2, e2)
      requires Grown(r0, l0, ranges, areas[a], s, e, s2, e2, purged)
      modifies this
      ensures Valid() && Elsewhere(a, old(areas), old(ranges), areas, ranges) && lost == old(lost)
      ensures AreaAt(areas, ranges, a) && |areas[a]| == |old(areas[a])| - 1
      ensures Grown(r0, l0, ranges, areas[a], s, e, s3, e3, purged') && Punctured(ranges, areas[a], s3, e3)
    {
      var r := ranges[areas[a][i]];
      s3 := if r.start < s2 then r.start else s2;
      e3 := if r.end > e2 then r.end else e2;
      purged' := purged || r.purged;
      assert AreaAt(areas, ranges, a);
      GrownMore(r0, l0, ranges, a, areas[a], s, e, s2, e2, purged, i, s3, e3);
      ghost var (r1, list) := (ranges, areas[a]);
      RangeDel(a, i);
      assert ranges == r1 - {list[i]} && areas[a] == RemoveAt(list, i);
      assert AreaAt(areas, ranges, a);
    }

    static lemma UnpinTracks(areas0: map<AreaId, seq<RangeId>>, ranges0: map<RangeId, Range>, areas: map<AreaId, seq<RangeId>>,
                             ranges: map<RangeId, Range>, a: AreaId, s: nat, e: nat, ok: bool, lost: set<(AreaId, nat)>)
      requires a in areas0 && Tracked(areas0, ranges0, lost) && Elsewhere(a, areas0, ranges0, areas, ranges)
      requires forall b {:trigger AreaAt(areas0, ranges0, b)} :: b in areas0 ==> AreaAt(areas0, ranges0, b)
      requires ok ==> Joins(ranges0, areas0[a], ranges, areas[a], s, e)
      requires !ok ==> JoinedLost(ranges0, areas0[a], ranges, areas[a], s, e)
      ensures Tracked(areas, ranges, lost) <==> ok || forall p: nat :: (a, p) in lost ==> !Joined(ranges0, areas0[a], s, e, p)
    {
      if ok || forall p: nat :: (a, p) in lost ==> !Joined(ranges0, areas0[a], s, e, p) {
        TrackedKept(areas0, ranges0, areas, ranges, a, lost, lost);
      } else {
        var p: nat :| (a, p) in lost && Joined(ranges0, areas0[a], s, e, p);
        assert !Marks(ranges, areas[a], p);
      }
    }

    /** Adds the joined range in the place where the walk stopped. */
    method AddJoined(a: AreaId, i: nat, purged: bool, s2: nat, e2: nat, memory: bool,
                     ghost areas0: map<AreaId, seq<RangeId>>, ghost ranges0: map<RangeId, Range>, ghost s: nat, ghost e: nat)
      returns (ok: bool)
      requires Valid() && a in areas && a in areas0 && Gap(ranges, areas[a], i, s2, e2) && AreaAt(areas0, ranges0, a)
      requires Elsewhere(a, areas0, ranges0, areas, ranges)
      requires Grown(ranges0, areas0[a], ranges, areas[a], s, e, s2, e2, purged)
      modifies this
      ensures Valid() && Elsewhere(a, areas0, ranges0, areas, ranges) && lost == old(lost)
      ensures ok == memory
      ensures ok ==> ranges == old(ranges)[old(next) := Range(a, s2, e2, purged)] && lru == if purged then old(lru) else old(lru) + [old(next)]
      ensures ok ==> Joins(ranges0, areas0[a], ranges, areas[a], s, e)
      ensures !ok ==> JoinedLost(ranges0, areas0[a], ranges, areas[a], s, e)
    {
      assert AreaAt(areas, ranges, a);
      GrownAll(ranges0, a, areas0[a], ranges, areas[a], s, e, s2, e2, purged, i);
      GrownAdded(ranges0, a, areas0[a], ranges, areas[a], s, e, s2, e2, purged, i, next);
      ghost var (r1, list) := (ranges, areas[a]);
      ok := RangeAlloc(a, i, purged, s2, e2, memory);
      assert ok ==> ranges == r1[old(next) := Range(a, s2, e2, purged)] && areas[a] == With(list, i, old(next));
      ElsewhereTransitive(a, areas0, ranges0, old(areas), old(ranges), areas, ranges);
    }

    static lemma GapHere(ranges: map<RangeId, Range>, a: AreaId, list: seq<RangeId>, i: nat, s: nat, e: nat)
      requires ListOk(ranges, a, list) && i <= |list|
      requires AllAbove(ranges, list, i, e)
      requires i < |list| && EntryOk(ranges, a, list, i) ==> ranges[list[i]].end < s
      ensures Gap(ranges, list, i, s, e)
    {
      forall k | i <= k < |list|
        ensures list[k] in ranges && ranges[list[k]].end < s
      {
        AboveFollowing(ranges, a, list, i, k);
      }
    }

    /** Whether any of the pages is unpinned. */
    method GetPinStatus(a: AreaId, s: nat, e: nat) returns (unpinned: bool)
      requires Valid() && a in areas && s <= e
      ensures unpinned <==> exists p: nat :: s <= p <= e && Covers(ranges, areas[a], p)
    {
      unpinned := false;
      var i: nat := 0;
      var list := areas[a];
      assert AreaAt(areas, ranges, a);
      while i < |list|
        invariant Passed(ranges, list, i, s, e)
      {
        assert EntryOk(ranges, a, list, i);
        var r := ranges[list[i]];
        if r.end < s {
          break;
        }
        if Meets(r, s, e) {
          MeetsIsIntersection(r, s, e);
          var p: nat :| Has(r, p) && s <= p <= e;
          assert Covers(ranges, list, p);
          return true;
        }
        i := i + 1;
      }
      PassedUncovered(ranges, a, list, i, s, e);
    }

    /**
     The memory shrinker: discards the pages of the ranges unpinned longest ago.
     It answers the number of pages, but its limit `nr` counts ranges, and a
     limit of 0 wraps around.  Where it may not wait for the file system it does nothing.
     */
    method ShrinkScan(nr: nat, mayWait: bool) returns (freed: int)
      requires Valid() && nr < 0x1_0000_0000_0000_0000
      modifies this
      ensures Valid() && (old(Tracks()) ==> Tracks())
      ensures areas == old(areas) && next == old(next)
      ensures !mayWait ==> freed == -1 && ranges == old(ranges) && lru == old(lru) && lruCount == old(lruCount) && lost == old(lost)
      ensures mayWait ==>
                var k := if |old(lru)| < ScanLimit(nr) then |old(lru)| else ScanLimit(nr);
                && ranges == PurgeAll(old(ranges), old(lru)[..k]) && lru == old(lru)[k..]
                && freed == old(lruCount) - lruCount == |Discarded(old(ranges), old(lru)[..k])|
                && lost == old(lost) + Discarded(old(ranges), old(lru)[..k])
      // The limit counts ranges.
      ensures mayWait && nr > 0 ==> lru == if nr < |old(lru)| then old(lru)[nr..] else []
      ensures mayWait && nr == 0 && |old(lru)| <= 0x1_0000_0000_0000_0000 ==> lru == []
      ensures forall a, p: nat :: a in areas ==> Covers(ranges, areas[a], p) == old(Covers(ranges, areas[a], p))
    {
      if !mayWait {
        return -1;
      }
      freed := Sweep(nr);
      ghost var k := if |old(lru)| < ScanLimit(nr) then |old(lru)| else ScanLimit(nr);
      lost := lost + Discarded(old(ranges), old(lru)[..k]);
      DiscardedCount(old(areas), old(ranges), old(lru), old(lruCount), k);
      Scanned(old(areas), old(ranges), old(lru), old(lruCount), k, old(lost));
    }

    method PurgeFirst() returns (pages: int)
      requires Valid() && lru != []
      modifies this
      ensures Valid() && areas == old(areas) && next == old(next) && lost == old(lost)
      ensures old(lru[0] in ranges) && ranges == Purge(old(ranges), old(lru[0])) && lru == old(lru)[1..]
      ensures pages == Size(old(ranges[lru[0]])) && lruCount == old(lruCount) - pages
    {
      PurgeKeeps(areas, ranges, lru, lruCount);
      var id := lru[0];
      pages := Size(ranges[id]);
      ranges := Purge(ranges, id);
      lru := lru[1..];
      lruCount := lruCount - pages;
    }

    method Sweep(nr: nat) returns (freed: int)
      requires Valid() && nr < 0x1_0000_0000_0000_0000
      modifies this
      ensures Valid() && areas == old(areas) && next == old(next) && lost == old(lost)
      ensures var k := if |old(lru)| < ScanLimit(nr) then |old(lru)| else ScanLimit(nr);
              ranges == PurgeAll(old(ranges), old(lru)[..k]) && lru == old(lru)[k..]
      ensures freed == old(lruCount) - lruCount
    {
      freed := 0;
      var left := nr;
      ghost var k: nat := 0;
      while lru != []
        invariant Valid() && areas == old(areas) && next == old(next) && lost == old(lost)
        invariant k <= |old(lru)| && lru == old(lru)[k..]
        invariant if k == 0 then left == nr else left > 0 && left + k == ScanLimit(nr)
        invariant ranges == PurgeAll(old(ranges), old(lru)[..k])
        invariant freed == old(lruCount) - lruCount
        decreases |lru|
      {
        assert old(lru)[..k + 1] == old(lru)[..k] + [lru[0]];
        var pages := PurgeFirst();
        freed := freed + pages;
        k := k + 1;
        left := if left == 0 then 0xFFFF_FFFF_FFFF_FFFF else left - 1;
        if left == 0 {
          break;
        }
      }
    }

    /** Scanning discards what the ranges purged hold, changes no cover, and marks everything that is lost. */
    static lemma Scanned(areas: map<AreaId, seq<RangeId>>, ranges: map<RangeId, Range>, lru: seq<RangeId>, count: int, k: nat,
                         lost: set<(AreaId, nat)>)
      requires Inv(areas, ranges, lru, count) && k <= |lru|
      ensures var r' := PurgeAll(ranges, lru[..k]);
              && Pages(lru, ranges) - Pages(lru[k..], r') == Pages(lru[..k], ranges)
              && (forall a, p: nat :: a in areas ==> Covers(r', areas[a], p) == Covers(ranges, areas[a], p))
              && (Tracked(areas, ranges, lost) ==> Tracked(areas, r', lost + Discarded(ranges, lru[..k])))
    {
      var r' := PurgeAll(ranges, lru[..k]);
      PurgeAllPages(ranges, lru[..k], [], 0);
      assert lru == lru[..k] + lru[k..];
      PagesSplit(lru[..k], lru[k..], ranges);
      PagesAgree(lru[k..], ranges, r');
      forall a, p: nat | a in areas
        ensures Covers(r', areas[a], p) == Covers(ranges, areas[a], p)
      {
        PurgeAllPages(ranges, lru[..k], areas[a], p);
      }
      if Tracked(areas, ranges, lost) {
        ScannedTracked(areas, ranges, lru, count, k, lost);
      }
    }

    static lemma ScannedTracked(areas: map<AreaId, seq<RangeId>>, ranges: map<RangeId, Range>, lru: seq<RangeId>, count: int, k: nat,
                                lost: set<(AreaId, nat)>)
      requires Inv(areas, ranges, lru, count) && k <= |lru| && Tracked(areas, ranges, lost)
      ensures Tracked(areas, PurgeAll(ranges, lru[..k]), lost + Discarded(ranges, lru[..k]))
    {
      forall l | l in lost + Discarded(ranges, lru[..k])
        ensures l.0 in areas && Marks(PurgeAll(ranges, lru[..k]), areas[l.0], l.1)
      {
        if l in lost {
          PurgeAllPages(ranges, lru[..k], areas[l.0], l.1);
        } else {
          var i, p: nat :| 0 <= i < k && lru[i] in ranges && ranges[lru[i]].start <= p <= ranges[lru[i]].end && l == (ranges[lru[i]].area, p);
          assert RangeAt(areas, ranges, lru, lru[i]);
          assert lru[i] in lru[..k] && lru[i] in areas[l.0] && Has(ranges[lru[i]], p);
          PurgeAllPages(ranges, lru[..k], areas[l.0], l.1);
        }
      }
    }

    /** The area goes, and all its ranges with it. */
    method Release(a: AreaId)
      requires Valid() && a in areas
      modifies this
      ensures Valid() && (old(Tracks()) ==> Tracks())
      ensures areas.Keys == old(areas).Keys - {a}
      ensures forall b :: b in areas ==> areas[b] == old(areas[b])
      ensures ranges == map id | id in old(ranges) && old(ranges)[id].area != a :: old(ranges)[id]
      ensures lost == set l | l in old(lost) && l.0 != a
    {
      assert AreaAt(areas, ranges, a);
      ReleaseRanges(a);
      if old(Tracks()) {
        TrackedKept(old(areas), old(ranges), areas, ranges, a, lost, set l | l in lost && l.0 != a);
      }
      Closed(areas, ranges, lru, lruCount, a);
      areas := areas - {a};
      lost := set l | l in lost && l.0 != a;
    }

    method ReleaseRanges(a: AreaId)
      requires Valid() && a in areas
      modifies this
      ensures Valid() && Elsewhere(a, old(areas), old(ranges), areas, ranges) && lost == old(lost) && areas[a] == []
    {
      assert AreaAt(areas, ranges, a);
      while areas[a] != []
        invariant Valid() && Elsewhere(a, old(areas), old(ranges), areas, ranges) && lost == old(lost) && AreaAt(areas, ranges, a)
        decreases |areas[a]|
      {
        assert EntryOk(ranges, a, areas[a], 0);
        RangeDel(a, 0);
        assert AreaAt(areas, ranges, a);
      }
    }

    static lemma Closed(areas: map<AreaId, seq<RangeId>>, ranges: map<RangeId, Range>, lru: seq<RangeId>, count: int, a: AreaId)
      requires Inv(areas, ranges, lru, count) && a in areas && areas[a] == []
      ensures Inv(areas - {a}, ranges, lru, count)
      ensures forall id :: id in ranges ==> ranges[id].area != a
    {
      var areas' := areas - {a};
      forall b | b in areas'
        ensures AreaAt(areas', ranges, b)
      {
        assert AreaAt(areas, ranges, b);
      }
      forall id | id in ranges
        ensures RangeAt(areas', ranges, lru, id) && ranges[id].area != a
      {
        assert RangeAt(areas, ranges, lru, id);
      }
    }
  }
}
