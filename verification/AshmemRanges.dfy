/**
 Unpinned page ranges of anonymous shared memory.  Every area keeps a list of
 the ranges its user has unpinned, highest first; all areas share one list of
 the ranges that may still be purged, and a count of their pages.
 */
module AshmemRanges {
  import opened Sequences

  type AreaId = nat
  type RangeId = nat

  /** Pages `start` to `end`, both included. */
  datatype Range = Range(area: AreaId, start: nat, end: nat, purged: bool)

  function Size(r: Range): int {
    r.end - r.start + 1
  }

  predicate Has(r: Range, p: nat) {
    r.start <= p <= r.end
  }

  // --- one list ------------------------------------------------------------

  /** The entry at `i` is a nonempty range of area `a`. */
  predicate EntryOk(ranges: map<RangeId, Range>, a: AreaId, list: seq<RangeId>, i: nat)
    requires i < |list|
  {
    list[i] in ranges && ranges[list[i]].area == a && ranges[list[i]].start <= ranges[list[i]].end
  }

  /** Everything at `j` lies strictly below everything at `i`. */
  predicate Above(ranges: map<RangeId, Range>, list: seq<RangeId>, i: nat, j: nat)
    requires i < |list| && j < |list|
  {
    list[i] in ranges && list[j] in ranges && ranges[list[j]].end < ranges[list[i]].start
  }

  /** The list is strictly descending and its ranges are disjoint. */
  predicate ListOk(ranges: map<RangeId, Range>, a: AreaId, list: seq<RangeId>) {
    && (forall i {:trigger EntryOk(ranges, a, list, i)} :: 0 <= i < |list| ==> EntryOk(ranges, a, list, i))
    && (forall i, j {:trigger Above(ranges, list, i, j)} :: 0 <= i < j < |list| ==> Above(ranges, list, i, j))
  }

  /** Page `p` is in some range of the list. */
  predicate Covers(ranges: map<RangeId, Range>, list: seq<RangeId>, p: nat) {
    exists id :: id in list && id in ranges && Has(ranges[id], p)
  }

  /** Page `p` is in some range of the list that has been purged. */
  predicate Marks(ranges: map<RangeId, Range>, list: seq<RangeId>, p: nat) {
    exists id :: id in list && id in ranges && ranges[id].purged && Has(ranges[id], p)
  }

  function With<T>(s: seq<T>, i: nat, x: T): seq<T>
    requires i <= |s|
  {
    s[..i] + [x] + s[i..]
  }

  lemma Once(ranges: map<RangeId, Range>, a: AreaId, list: seq<RangeId>, i: nat, j: nat)
    requires ListOk(ranges, a, list) && i < |list| && j < |list| && i != j
    ensures list[i] != list[j]
  {
    assert EntryOk(ranges, a, list, i);
    if i < j {
      assert Above(ranges, list, i, j);
    } else {
      assert Above(ranges, list, j, i);
    }
  }

  // --- the list of purgeable ranges ----------------------------------------

  function Pages(lru: seq<RangeId>, ranges: map<RangeId, Range>): int {
    if lru == [] then 0 else Pages(lru[1..], ranges) + (if lru[0] in ranges then Size(ranges[lru[0]]) else 0)
  }

  lemma {:induction false} PagesSplit(a: seq<RangeId>, b: seq<RangeId>, ranges: map<RangeId, Range>)
    ensures Pages(a + b, ranges) == Pages(a, ranges) + Pages(b, ranges)
  {
    if a == [] {
      assert a + b == b;
    } else {
      assert (a + b)[1..] == a[1..] + b;
      PagesSplit(a[1..], b, ranges);
    }
  }

  lemma {:induction false} PagesAgree(lru: seq<RangeId>, ranges: map<RangeId, Range>, ranges': map<RangeId, Range>)
    requires forall i :: 0 <= i < |lru| ==>
               (lru[i] in ranges <==> lru[i] in ranges') && (lru[i] in ranges ==> Size(ranges[lru[i]]) == Size(ranges'[lru[i]]))
    ensures Pages(lru, ranges) == Pages(lru, ranges')
  {
    if lru != [] {
      PagesAgree(lru[1..], ranges, ranges');
    }
  }

  lemma PagesWithout(lru: seq<RangeId>, i: nat, ranges: map<RangeId, Range>)
    requires i < |lru| && lru[i] in ranges
    ensures Pages(RemoveAt(lru, i), ranges) == Pages(lru, ranges) - Size(ranges[lru[i]])
  {
    assert lru == lru[..i] + [lru[i]] + lru[i + 1..];
    PagesSplit(lru[..i] + [lru[i]], lru[i + 1..], ranges);
    PagesSplit(lru[..i], [lru[i]], ranges);
    PagesSplit(lru[..i], lru[i + 1..], ranges);
  }

  lemma PagesResized(lru: seq<RangeId>, i: nat, ranges: map<RangeId, Range>, r: Range)
    requires i < |lru| && lru[i] in ranges && Distinct(lru)
    ensures Pages(lru, ranges[lru[i] := r]) == Pages(lru, ranges) - Size(ranges[lru[i]]) + Size(r)
  {
    var ranges' := ranges[lru[i] := r];
    PagesWithout(lru, i, ranges);
    PagesWithout(lru, i, ranges');
    PagesAgree(RemoveAt(lru, i), ranges, ranges');
  }

  // --- the whole -----------------------------------------------------------

  predicate AreaAt(areas: map<AreaId, seq<RangeId>>, ranges: map<RangeId, Range>, a: AreaId)
    requires a in areas
  {
    ListOk(ranges, a, areas[a])
  }

  predicate RangeAt(areas: map<AreaId, seq<RangeId>>, ranges: map<RangeId, Range>, lru: seq<RangeId>, id: RangeId)
    requires id in ranges
  {
    && ranges[id].area in areas && id in areas[ranges[id].area]
    && (id in lru <==> !ranges[id].purged)
  }

  /** Every range is in its area's list, and in the shared list exactly when it can still be purged. */
  predicate Inv(areas: map<AreaId, seq<RangeId>>, ranges: map<RangeId, Range>, lru: seq<RangeId>, lruCount: int) {
    && (forall a {:trigger AreaAt(areas, ranges, a)} :: a in areas ==> AreaAt(areas, ranges, a))
    && (forall id {:trigger RangeAt(areas, ranges, lru, id)} :: id in ranges ==> RangeAt(areas, ranges, lru, id))
    && Distinct(lru) && (forall i :: 0 <= i < |lru| ==> lru[i] in ranges)
    && lruCount == Pages(lru, ranges)
  }
}
