/**
 What deleting, shrinking, adding and purging one range does to the lists, the
 shared count and the pages they stand for.
 */
module AshmemSteps {

  import opened Sequences
  import opened AshmemRanges

  /** The shared list without `id`, wherever it is. */
  function Dropped(lru: seq<RangeId>, id: RangeId): seq<RangeId> {
    if id in lru then RemoveAt(lru, Position(lru, id)) else lru
  }

  lemma DroppedKeeps(lru: seq<RangeId>, id: RangeId)
    requires Distinct(lru)
    ensures Distinct(Dropped(lru, id))
    ensures forall x :: x in Dropped(lru, id) <==> x in lru && x != id
  {
    if id in lru {
      var i := Position(lru, id);
      var lru' := RemoveAt(lru, i);
      assert forall k :: 0 <= k < |lru'| ==> lru'[k] == lru[if k < i then k else k + 1];
      forall x | x in lru && x != id
        ensures x in lru'
      {
        var k := Position(lru, x);
        assert lru'[if k < i then k else k - 1] == x;
      }
    }
  }

  /** Only area `a` and its ranges differ between the two states. */
  predicate Elsewhere(a: AreaId, areas: map<AreaId, seq<RangeId>>, ranges: map<RangeId, Range>,
                      areas': map<AreaId, seq<RangeId>>, ranges': map<RangeId, Range>)
  {
    && areas'.Keys == areas.Keys
    && (forall b :: b in areas && b != a ==> areas'[b] == areas[b])
    && (forall id :: id in ranges && ranges[id].area != a ==> id in ranges' && ranges'[id] == ranges[id])
    && (forall id :: id in ranges' && ranges'[id].area != a ==> id in ranges && ranges'[id] == ranges[id])
  }

  lemma ElsewhereTransitive(a: AreaId, areas: map<AreaId, seq<RangeId>>, ranges: map<RangeId, Range>,
                            areas1: map<AreaId, seq<RangeId>>, ranges1: map<RangeId, Range>,
                            areas2: map<AreaId, seq<RangeId>>, ranges2: map<RangeId, Range>)
    requires Elsewhere(a, areas, ranges, areas1, ranges1) && Elsewhere(a, areas1, ranges1, areas2, ranges2)
    ensures Elsewhere(a, areas, ranges, areas2, ranges2)
  {
  }

  /** A list of another area keeps its order and its pages. */
  lemma ElsewhereKept(a: AreaId, areas: map<AreaId, seq<RangeId>>, ranges: map<RangeId, Range>,
                      areas': map<AreaId, seq<RangeId>>, ranges': map<RangeId, Range>, b: AreaId)
    requires Elsewhere(a, areas, ranges, areas', ranges') && b in areas && b != a && AreaAt(areas, ranges, b)
    ensures AreaAt(areas', ranges', b)
    ensures forall p :: Covers(ranges', areas'[b], p) == Covers(ranges, areas[b], p)
    ensures forall p :: Marks(ranges', areas'[b], p) == Marks(ranges, areas[b], p)
  {
    var list := areas[b];
    forall i | 0 <= i < |list|
      ensures EntryOk(ranges', b, list, i) && list[i] in ranges && ranges'[list[i]] == ranges[list[i]]
    {
      assert EntryOk(ranges, b, list, i);
    }
    forall i, j | 0 <= i < j < |list|
      ensures Above(ranges', list, i, j)
    {
      assert Above(ranges, list, i, j);
    }
    forall p
      ensures Covers(ranges', list, p) == Covers(ranges, list, p)
      ensures Marks(ranges', list, p) == Marks(ranges, list, p)
    {
    }
  }

  /** A list of pairwise different positions: what is found twice is found at one place. */
  lemma Found(ranges: map<RangeId, Range>, a: AreaId, list: seq<RangeId>, p: nat) returns (i: nat)
    requires ListOk(ranges, a, list) && Covers(ranges, list, p)
    ensures i < |list| && EntryOk(ranges, a, list, i) && Has(ranges[list[i]], p)
    ensures Marks(ranges, list, p) <==> ranges[list[i]].purged
  {
    var id :| id in list && id in ranges && Has(ranges[id], p);
    i := Position(list, id);
    assert EntryOk(ranges, a, list, i);
    if Marks(ranges, list, p) {
      var m :| m in list && m in ranges && ranges[m].purged && Has(ranges[m], p);
      Order(ranges, a, list, i, Position(list, m));
    }
  }

  lemma Order(ranges: map<RangeId, Range>, a: AreaId, list: seq<RangeId>, i: nat, j: nat)
    requires ListOk(ranges, a, list) && i < |list| && j < |list|
    ensures i < j ==> Above(ranges, list, i, j)
    ensures j < i ==> Above(ranges, list, j, i)
  {
  }

  // --- deleting ------------------------------------------------------------

  lemma DelList(ranges: map<RangeId, Range>, a: AreaId, list: seq<RangeId>, i: nat)
    requires ListOk(ranges, a, list) && i < |list|
    ensures ListOk(ranges - {list[i]}, a, RemoveAt(list, i))
    ensures forall x :: x in RemoveAt(list, i) <==> x in list && x != list[i]
  {
    var list' := RemoveAt(list, i);
    var ranges' := ranges - {list[i]};
    forall k | 0 <= k < |list'|
      ensures EntryOk(ranges', a, list', k)
    {
      var j := if k < i then k else k + 1;
      assert EntryOk(ranges, a, list, j);
      Once(ranges, a, list, i, j);
    }
    forall k, m | 0 <= k < m < |list'|
      ensures Above(ranges', list', k, m)
    {
      assert EntryOk(ranges', a, list', k) && EntryOk(ranges', a, list', m);
      assert Above(ranges, list, if k < i then k else k + 1, if m < i then m else m + 1);
    }
    forall x | x in list && x != list[i]
      ensures x in list'
    {
      var k := Position(list, x);
      assert list'[if k < i then k else k - 1] == x;
    }
    assert list[i] !in list' by {
      if list[i] in list' {
        var k := Position(list', list[i]);
        Once(ranges, a, list, i, if k < i then k else k + 1);
      }
    }
  }

  lemma DelPages(ranges: map<RangeId, Range>, a: AreaId, list: seq<RangeId>, i: nat, p: nat)
    requires ListOk(ranges, a, list) && i < |list| && EntryOk(ranges, a, list, i)
    ensures Covers(ranges - {list[i]}, RemoveAt(list, i), p) <==> Covers(ranges, list, p) && !Has(ranges[list[i]], p)
    ensures Marks(ranges - {list[i]}, RemoveAt(list, i), p) <==> Marks(ranges, list, p) && !Has(ranges[list[i]], p)
  {
    DelList(ranges, a, list, i);
    var list' := RemoveAt(list, i);
    var ranges' := ranges - {list[i]};
    if Covers(ranges', list', p) {
      var id :| id in list' && id in ranges' && Has(ranges'[id], p);
      var j := Position(list, id);
      Order(ranges, a, list, i, j);
    }
  }

  /** `range_del`: the range leaves its area's list and, unless purged, the shared one. */
  lemma DelKeeps(areas: map<AreaId, seq<RangeId>>, ranges: map<RangeId, Range>, lru: seq<RangeId>, count: int,
                 a: AreaId, i: nat)
    requires Inv(areas, ranges, lru, count) && a in areas && i < |areas[a]| && EntryOk(ranges, a, areas[a], i)
    ensures var id := areas[a][i];
            Inv(areas[a := RemoveAt(areas[a], i)], ranges - {id}, Dropped(lru, id),
                if ranges[id].purged then count else count - Size(ranges[id]))
    ensures Elsewhere(a, areas, ranges, areas[a := RemoveAt(areas[a], i)], ranges - {areas[a][i]})
  {
    var id := areas[a][i];
    var areas', ranges', lru' := areas[a := RemoveAt(areas[a], i)], ranges - {id}, Dropped(lru, id);
    assert AreaAt(areas, ranges, a) && RangeAt(areas, ranges, lru, id);
    DelList(ranges, a, areas[a], i);
    DroppedKeeps(lru, id);
    forall b | b in areas'
      ensures AreaAt(areas', ranges', b)
    {
      if b != a {
        assert AreaAt(areas, ranges, b);
        ElsewhereKept(a, areas, ranges, areas', ranges', b);
      }
    }
    forall x | x in ranges'
      ensures RangeAt(areas', ranges', lru', x)
    {
      assert RangeAt(areas, ranges, lru, x);
    }
    if id in lru {
      PagesWithout(lru, Position(lru, id), ranges);
    }
    PagesAgree(lru', ranges, ranges');
  }

  // --- shrinking -----------------------------------------------------------

  function Resized(ranges: map<RangeId, Range>, id: RangeId, s: nat, e: nat): map<RangeId, Range>
    requires id in ranges
  {
    ranges[id := ranges[id].(start := s, end := e)]
  }

  lemma ShrinkList(ranges: map<RangeId, Range>, a: AreaId, list: seq<RangeId>, i: nat, s: nat, e: nat)
    requires ListOk(ranges, a, list) && i < |list| && EntryOk(ranges, a, list, i)
    requires ranges[list[i]].start <= s <= e <= ranges[list[i]].end
    ensures ListOk(Resized(ranges, list[i], s, e), a, list)
  {
    var ranges' := Resized(ranges, list[i], s, e);
    forall k | 0 <= k < |list|
      ensures EntryOk(ranges', a, list, k)
    {
      assert EntryOk(ranges, a, list, k);
    }
    forall k, m | 0 <= k < m < |list|
      ensures Above(ranges', list, k, m)
    {
      assert Above(ranges, list, k, m);
    }
  }

  lemma ShrinkPages(ranges: map<RangeId, Range>, a: AreaId, list: seq<RangeId>, i: nat, s: nat, e: nat, p: nat)
    requires ListOk(ranges, a, list) && i < |list| && EntryOk(ranges, a, list, i)
    requires ranges[list[i]].start <= s <= e <= ranges[list[i]].end
    ensures var ranges' := Resized(ranges, list[i], s, e);
            && (Covers(ranges', list, p) <==> Covers(ranges, list, p) && (Has(ranges[list[i]], p) ==> s <= p <= e))
            && (Marks(ranges', list, p) <==> Marks(ranges, list, p) && (Has(ranges[list[i]], p) ==> s <= p <= e))
  {
    var ranges' := Resized(ranges, list[i], s, e);
    if Covers(ranges', list, p) {
      var id :| id in list && id in ranges' && Has(ranges'[id], p);
      var j := Position(list, id);
      Order(ranges, a, list, i, j);
    }
    if Covers(ranges, list, p) && (Has(ranges[list[i]], p) ==> s <= p <= e) {
      var id :| id in list && id in ranges && Has(ranges[id], p);
      assert id in ranges' && Has(ranges'[id], p);
    }
    if Marks(ranges, list, p) && (Has(ranges[list[i]], p) ==> s <= p <= e) {
      var id :| id in list && id in ranges && ranges[id].purged && Has(ranges[id], p);
      assert id in ranges' && ranges'[id].purged && Has(ranges'[id], p);
    }
    if Marks(ranges', list, p) {
      var id :| id in list && id in ranges' && ranges'[id].purged && Has(ranges'[id], p);
      assert id in ranges && ranges[id].purged && Has(ranges[id], p);
    }
  }

  /** `range_shrink`: the shared count gives up what the range gives up. */
  lemma ShrinkKeeps(areas: map<AreaId, seq<RangeId>>, ranges: map<RangeId, Range>, lru: seq<RangeId>, count: int,
                    a: AreaId, i: nat, s: nat, e: nat)
    requires Inv(areas, ranges, lru, count) && a in areas && i < |areas[a]| && EntryOk(ranges, a, areas[a], i)
    requires ranges[areas[a][i]].start <= s <= e <= ranges[areas[a][i]].end
    ensures var r := ranges[areas[a][i]];
            Inv(areas, Resized(ranges, areas[a][i], s, e), lru,
                if r.purged then count else count - (Size(r) - (e - s + 1)))
    ensures Elsewhere(a, areas, ranges, areas, Resized(ranges, areas[a][i], s, e))
  {
    var id := areas[a][i];
    var ranges' := Resized(ranges, id, s, e);
    assert AreaAt(areas, ranges, a) && RangeAt(areas, ranges, lru, id);
    ShrinkList(ranges, a, areas[a], i, s, e);
    forall b | b in areas
      ensures AreaAt(areas, ranges', b)
    {
      if b != a {
        assert AreaAt(areas, ranges, b);
        ElsewhereKept(a, areas, ranges, areas, ranges', b);
      }
    }
    forall x | x in ranges'
      ensures RangeAt(areas, ranges', lru, x)
    {
      assert RangeAt(areas, ranges, lru, x);
    }
    if id in lru {
      PagesResized(lru, Position(lru, id), ranges, ranges'[id]);
    } else {
      PagesAgree(lru, ranges, ranges');
    }
  }

  // --- adding --------------------------------------------------------------

  /** Pages `s` to `e` lie below everything before position `i` and above everything from it. */
  predicate Gap(ranges: map<RangeId, Range>, list: seq<RangeId>, i: nat, s: nat, e: nat) {
    && i <= |list|
    && (forall k :: 0 <= k < i ==> list[k] in ranges && e < ranges[list[k]].start)
    && (forall k :: i <= k < |list| ==> list[k] in ranges && ranges[list[k]].end < s)
  }

  lemma AddList(ranges: map<RangeId, Range>, a: AreaId, list: seq<RangeId>, i: nat, id: RangeId, r: Range)
    requires ListOk(ranges, a, list) && Gap(ranges, list, i, r.start, r.end)
    requires id !in ranges && r.area == a && r.start <= r.end
    ensures ListOk(ranges[id := r], a, With(list, i, id))
    ensures forall x :: x in With(list, i, id) <==> x in list || x == id
  {
    var list' := With(list, i, id);
    var ranges' := ranges[id := r];
    forall k | 0 <= k < |list'|
      ensures EntryOk(ranges', a, list', k)
    {
      if k != i {
        assert EntryOk(ranges, a, list, if k < i then k else k - 1);
      }
    }
    forall k, m | 0 <= k < m < |list'|
      ensures Above(ranges', list', k, m)
    {
      assert EntryOk(ranges', a, list', k) && EntryOk(ranges', a, list', m);
      if k != i && m != i {
        assert Above(ranges, list, if k < i then k else k - 1, if m < i then m else m - 1);
      }
    }
  }

  lemma AddPages(ranges: map<RangeId, Range>, a: AreaId, list: seq<RangeId>, i: nat, id: RangeId, r: Range, p: nat)
    requires ListOk(ranges, a, list) && Gap(ranges, list, i, r.start, r.end)
    requires id !in ranges && r.area == a && r.start <= r.end
    ensures Covers(ranges[id := r], With(list, i, id), p) <==> Covers(ranges, list, p) || Has(r, p)
    ensures Marks(ranges[id := r], With(list, i, id), p) <==> Marks(ranges, list, p) || (r.purged && Has(r, p))
  {
    AddList(ranges, a, list, i, id, r);
    var list' := With(list, i, id);
    var ranges' := ranges[id := r];
    assert id in list';
    if Covers(ranges, list, p) {
      var x :| x in list && x in ranges && Has(ranges[x], p);
      assert x in list' && x in ranges' && Has(ranges'[x], p);
    }
    if Marks(ranges, list, p) {
      var x :| x in list && x in ranges && ranges[x].purged && Has(ranges[x], p);
      assert x in list' && x in ranges' && ranges'[x].purged && Has(ranges'[x], p);
    }
    if Covers(ranges', list', p) {
      var x :| x in list' && x in ranges' && Has(ranges'[x], p);
      assert x != id ==> x in list && x in ranges && Has(ranges[x], p);
    }
    if Marks(ranges', list', p) {
      var x :| x in list' && x in ranges' && ranges'[x].purged && Has(ranges'[x], p);
      assert x != id ==> x in list && x in ranges && ranges[x].purged && Has(ranges[x], p);
    }
  }

  lemma AddAreas(areas: map<AreaId, seq<RangeId>>, ranges: map<RangeId, Range>, a: AreaId, i: nat, id: RangeId, r: Range)
    requires forall b {:trigger AreaAt(areas, ranges, b)} :: b in areas ==> AreaAt(areas, ranges, b)
    requires a in areas && Gap(ranges, areas[a], i, r.start, r.end) && id !in ranges && r.area == a && r.start <= r.end
    ensures var (areas', ranges') := (areas[a := With(areas[a], i, id)], ranges[id := r]);
            && (forall b {:trigger AreaAt(areas', ranges', b)} :: b in areas' ==> AreaAt(areas', ranges', b))
            && Elsewhere(a, areas, ranges, areas', ranges')
            && (forall x :: x in areas'[a] <==> x in areas[a] || x == id)
  {
    var areas', ranges' := areas[a := With(areas[a], i, id)], ranges[id := r];
    assert AreaAt(areas, ranges, a);
    AddList(ranges, a, areas[a], i, id, r);
    forall b | b in areas'
      ensures AreaAt(areas', ranges', b)
    {
      if b != a {
        assert AreaAt(areas, ranges, b);
        ElsewhereKept(a, areas, ranges, areas', ranges', b);
      }
    }
  }

  lemma AddLru(ranges: map<RangeId, Range>, lru: seq<RangeId>, count: int, id: RangeId, r: Range)
    requires Distinct(lru) && (forall i :: 0 <= i < |lru| ==> lru[i] in ranges) && count == Pages(lru, ranges)
    requires id !in ranges
    ensures var lru' := if r.purged then lru else lru + [id];
            && Distinct(lru') && (forall i :: 0 <= i < |lru'| ==> lru'[i] in ranges[id := r])
            && (forall x :: x in lru' <==> x in lru || (x == id && !r.purged)) && id !in lru
            && Pages(lru', ranges[id := r]) == if r.purged then count else count + Size(r)
  {
    var ranges' := ranges[id := r];
    assert id !in lru;
    PagesAgree(lru, ranges, ranges');
    PagesSplit(lru, [id], ranges');
  }

  /** `range_alloc`: a new range takes its place, and goes to the end of the shared list unless purged. */
  lemma AddKeeps(areas: map<AreaId, seq<RangeId>>, ranges: map<RangeId, Range>, lru: seq<RangeId>, count: int,
                 a: AreaId, i: nat, id: RangeId, r: Range)
    requires Inv(areas, ranges, lru, count) && a in areas && Gap(ranges, areas[a], i, r.start, r.end)
    requires id !in ranges && r.area == a && r.start <= r.end
    ensures Inv(areas[a := With(areas[a], i, id)], ranges[id := r],
                if r.purged then lru else lru + [id], if r.purged then count else count + Size(r))
    ensures Elsewhere(a, areas, ranges, areas[a := With(areas[a], i, id)], ranges[id := r])
  {
    var areas', ranges' := areas[a := With(areas[a], i, id)], ranges[id := r];
    var lru' := if r.purged then lru else lru + [id];
    AddAreas(areas, ranges, a, i, id, r);
    AddLru(ranges, lru, count, id, r);
    forall x | x in ranges'
      ensures RangeAt(areas', ranges', lru', x)
    {
      if x != id {
        assert RangeAt(areas, ranges, lru, x);
      }
    }
  }

  // --- purging -------------------------------------------------------------

  function Purge(ranges: map<RangeId, Range>, id: RangeId): map<RangeId, Range>
    requires id in ranges
  {
    ranges[id := ranges[id].(purged := true)]
  }

  /** Purging changes what is marked and never what is covered. */
  lemma PurgePages(ranges: map<RangeId, Range>, list: seq<RangeId>, id: RangeId, p: nat)
    requires id in ranges
    ensures Covers(Purge(ranges, id), list, p) == Covers(ranges, list, p)
    ensures Marks(Purge(ranges, id), list, p) <==> Marks(ranges, list, p) || (id in list && Has(ranges[id], p))
  {
    var ranges' := Purge(ranges, id);
    if Covers(ranges', list, p) {
      var x :| x in list && x in ranges' && Has(ranges'[x], p);
      assert x in ranges && Has(ranges[x], p);
    }
    if Covers(ranges, list, p) {
      var x :| x in list && x in ranges && Has(ranges[x], p);
      assert x in ranges' && Has(ranges'[x], p);
    }
    if Marks(ranges', list, p) {
      var x :| x in list && x in ranges' && ranges'[x].purged && Has(ranges'[x], p);
      assert x != id ==> x in ranges && ranges[x].purged && Has(ranges[x], p);
    }
    if Marks(ranges, list, p) {
      var x :| x in list && x in ranges && ranges[x].purged && Has(ranges[x], p);
      assert x in ranges' && ranges'[x].purged && Has(ranges'[x], p);
    }
    if id in list && Has(ranges[id], p) {
      assert id in ranges' && ranges'[id].purged && Has(ranges'[id], p);
    }
  }

  lemma PurgeKeeps(areas: map<AreaId, seq<RangeId>>, ranges: map<RangeId, Range>, lru: seq<RangeId>, count: int)
    requires Inv(areas, ranges, lru, count) && lru != []
    ensures Inv(areas, Purge(ranges, lru[0]), lru[1..], count - Size(ranges[lru[0]]))
  {
    var id := lru[0];
    var ranges' := Purge(ranges, id);
    forall a | a in areas
      ensures AreaAt(areas, ranges', a)
    {
      assert AreaAt(areas, ranges, a);
      var list := areas[a];
      forall i | 0 <= i < |list|
        ensures EntryOk(ranges', a, list, i)
      {
        assert EntryOk(ranges, a, list, i);
      }
      forall i, j | 0 <= i < j < |list|
        ensures Above(ranges', list, i, j)
      {
        assert Above(ranges, list, i, j);
      }
    }
    assert id !in lru[1..];
    forall x | x in ranges'
      ensures RangeAt(areas, ranges', lru[1..], x)
    {
      assert RangeAt(areas, ranges, lru, x);
    }
    PagesAgree(lru[1..], ranges, ranges');
  }
}
