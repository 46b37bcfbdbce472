/**
 Whole runs: seen from outside, the lists are plain sets of unpinned pages, and
 no purge goes unreported.
 */
module AshmemRuns {

  import opened AshmemRanges
  import opened AshmemSteps
  import opened AshmemDriver

  datatype Op =
    | Open(area: AreaId)
    | Release(area: AreaId)
    | Pin(area: AreaId, start: nat, end: nat, memory: bool)
    | Unpin(area: AreaId, start: nat, end: nat, memory: bool)
    | Shrink(nr: nat, mayWait: bool)

  type Sets = map<AreaId, set<nat>>

  function Interval(s: nat, e: nat): (pages: set<nat>)
    ensures forall p :: p in pages <==> s <= p <= e
  {
    if e < s then {} else if e == s then {s} else Interval(s, e - 1) + {e}
  }

  /** Requests come from open files, for at least one page. */
  predicate Possible(sets: Sets, op: Op) {
    match op
    case Open(a) => a !in sets
    case Release(a) => a in sets
    case Pin(a, s, e, _) => a in sets && s <= e
    case Unpin(a, s, e, _) => a in sets && s <= e
    case Shrink(nr, _) => nr < 0x1_0000_0000_0000_0000
  }

  /** What a request does to the sets of unpinned pages, given memory. */
  function After(sets: Sets, op: Op): Sets {
    if !Possible(sets, op) then sets
    else
      match op
      case Open(a) => sets[a := {}]
      case Release(a) => sets - {a}
      case Pin(a, s, e, _) => sets[a := sets[a] - Interval(s, e)]
      case Unpin(a, s, e, _) => sets[a := sets[a] + Interval(s, e)]
      case Shrink(_, _) => sets
  }

  function AfterAll(ops: seq<Op>): Sets {
    if ops == [] then map[] else After(AfterAll(ops[..|ops| - 1]), ops[|ops| - 1])
  }

  /** The lists stand for the sets. */
  ghost predicate Stands(areas: map<AreaId, seq<RangeId>>, ranges: map<RangeId, Range>, sets: Sets) {
    && areas.Keys == sets.Keys
    && forall a, p: nat :: a in areas ==> (Covers(ranges, areas[a], p) <==> p in sets[a])
  }

  lemma StandsElsewhere(areas: map<AreaId, seq<RangeId>>, ranges: map<RangeId, Range>,
                        areas': map<AreaId, seq<RangeId>>, ranges': map<RangeId, Range>, a: AreaId, sets: Sets, set': set<nat>)
    requires Stands(areas, ranges, sets) && a in areas && Elsewhere(a, areas, ranges, areas', ranges')
    requires forall b {:trigger AreaAt(areas, ranges, b)} :: b in areas ==> AreaAt(areas, ranges, b)
    requires forall p: nat :: Covers(ranges', areas'[a], p) <==> p in set'
    ensures Stands(areas', ranges', sets[a := set'])
  {
    forall b, p: nat | b in areas'
      ensures Covers(ranges', areas'[b], p) <==> p in sets[a := set'][b]
    {
      if b != a {
        assert AreaAt(areas, ranges, b);
        ElsewhereKept(a, areas, ranges, areas', ranges', b);
      }
    }
  }

  predicate HasMemory(op: Op) {
    op.Pin? || op.Unpin? ==> op.memory
  }

  /** What a run is judged by: lists, ranges and the pages that were discarded since they were unpinned. */
  datatype State = State(areas: map<AreaId, seq<RangeId>>, ranges: map<RangeId, Range>, lost: set<(AreaId, nat)>)

  ghost function StateOf(m: Ashmem): State
    reads m
  {
    State(m.areas, m.ranges, m.lost)
  }

  predicate TrackedIn(t: State) {
    Tracked(t.areas, t.ranges, t.lost)
  }

  /**
   The request forgets a discarded page.  It pins without memory and the page is in
   the upper part of a range to be cut, or it unpins without memory what no single
   range holds and the page is in a range that was to be joined.
   */
  ghost predicate Forgets(t: State, op: Op) {
    match op
    case Pin(a, s, e, memory) =>
      a in t.areas && s <= e && !memory && exists p: nat :: (a, p) in t.lost && CutTail(t.ranges, t.areas[a], s, e, p)
    case Unpin(a, s, e, memory) =>
      && a in t.areas && s <= e && !memory && !Inside(t.ranges, t.areas[a], s, e)
      && exists p: nat :: (a, p) in t.lost && Joined(t.ranges, t.areas[a], s, e, p)
    case _ => false
  }

  /** What a request does to the pages of its area, and to no other area. */
  ghost predicate Changed(t: State, op: Op, t': State) {
    match op
    case Open(a) => t' == if a in t.areas then t else t.(areas := t.areas[a := []])
    case Release(a) =>
      t' == if a !in t.areas then t
            else State(t.areas - {a}, map id | id in t.ranges && t.ranges[id].area != a :: t.ranges[id], set l | l in t.lost && l.0 != a)
    case Pin(a, s, e, memory) =>
      if !(a in t.areas && s <= e) then t' == t
      else
        && Elsewhere(a, t.areas, t.ranges, t'.areas, t'.ranges) && t'.lost == t.lost - PagesOf(Range(a, s, e, true))
        && Ashmem.Pins(t.ranges, t.areas[a], t'.ranges, t'.areas[a], s, e, memory)
    case Unpin(a, s, e, memory) =>
      if !(a in t.areas && s <= e) then t' == t
      else
        && Elsewhere(a, t.areas, t.ranges, t'.areas, t'.ranges) && t'.lost == t.lost
        && (if memory || Inside(t.ranges, t.areas[a], s, e) then Ashmem.Joins(t.ranges, t.areas[a], t'.ranges, t'.areas[a], s, e)
            else Ashmem.JoinedLost(t.ranges, t.areas[a], t'.ranges, t'.areas[a], s, e))
    case Shrink(_, mayWait) =>
      && t'.areas == t.areas && t.lost <= t'.lost && (!mayWait ==> t' == t)
      && (forall a, p: nat :: a in t.areas ==> Covers(t'.ranges, t.areas[a], p) == Covers(t.ranges, t.areas[a], p))
  }

  /** Any request, with memory or without, from any state. */
  method Step(m: Ashmem, op: Op)
    requires m.Valid()
    modifies m
    ensures m.Valid() && Changed(old(StateOf(m)), op, StateOf(m))
    ensures old(m.Tracks()) ==> (m.Tracks() <==> !Forgets(old(StateOf(m)), op))
  {
    match op
    case Open(a) =>
      if a !in m.areas {
        m.Open(a);
      }
    case Release(a) =>
      if a in m.areas {
        m.Release(a);
        assert m.areas == old(m.areas) - {a};
      }
    case Pin(a, s, e, memory) =>
      if a in m.areas && s <= e {
        var _ := m.Pin(a, s, e, memory);
      }
    case Unpin(a, s, e, memory) =>
      if a in m.areas && s <= e {
        var _ := m.Unpin(a, s, e, memory);
      }
    case Shrink(nr, mayWait) =>
      if nr < 0x1_0000_0000_0000_0000 {
        var _ := m.ShrinkScan(nr, mayWait);
      }
  }

  /** With memory, a request does to the lists what it does to the sets. */
  lemma StepStands(t: State, op: Op, t': State, sets: Sets)
    requires Changed(t, op, t') && HasMemory(op) && Stands(t.areas, t.ranges, sets)
    requires forall b {:trigger AreaAt(t.areas, t.ranges, b)} :: b in t.areas ==> AreaAt(t.areas, t.ranges, b)
    ensures Stands(t'.areas, t'.ranges, After(sets, op))
  {
    match op
    case Open(a) =>
      assert forall p: nat :: !Covers(t'.ranges, [], p);
    case Release(a) =>
      if a in t.areas {
        Released(t.areas, t.ranges, t'.areas, t'.ranges, a, sets);
      }
    case Pin(a, s, e, _) =>
      if a in t.areas && s <= e {
        StandsElsewhere(t.areas, t.ranges, t'.areas, t'.ranges, a, sets, sets[a] - Interval(s, e));
      }
    case Unpin(a, s, e, _) =>
      if a in t.areas && s <= e {
        StandsElsewhere(t.areas, t.ranges, t'.areas, t'.ranges, a, sets, sets[a] + Interval(s, e));
      }
    case Shrink(_, _) =>
  }

  lemma Released(areas: map<AreaId, seq<RangeId>>, ranges: map<RangeId, Range>,
                 areas': map<AreaId, seq<RangeId>>, ranges': map<RangeId, Range>, a: AreaId, sets: Sets)
    requires Stands(areas, ranges, sets) && a in areas && areas' == areas - {a}
    requires ranges' == map id | id in ranges && ranges[id].area != a :: ranges[id]
    requires forall b {:trigger AreaAt(areas, ranges, b)} :: b in areas ==> AreaAt(areas, ranges, b)
    ensures Stands(areas', ranges', sets - {a})
  {
    forall b, p: nat | b in areas'
      ensures Covers(ranges', areas'[b], p) <==> p in (sets - {a})[b]
    {
      assert AreaAt(areas, ranges, b);
      assert forall i :: 0 <= i < |areas[b]| ==> EntryOk(ranges, b, areas[b], i);
      if Covers(ranges, areas[b], p) {
        var i := Found(ranges, b, areas[b], p);
        assert areas[b][i] in ranges' && Has(ranges'[areas[b][i]], p);
      }
    }
  }

  /** The states of a run of requests. */
  ghost predicate Path(ops: seq<Op>, path: seq<State>) {
    && |path| == |ops| + 1 && path[0] == State(map[], map[], {})
    && (forall k :: 0 <= k < |ops| ==> Changed(path[k], ops[k], path[k + 1]))
    && (forall k :: 0 <= k < |ops| ==> TrackedIn(path[k]) ==> (TrackedIn(path[k + 1]) <==> !Forgets(path[k], ops[k])))
  }

  lemma PathGrows(ops: seq<Op>, path: seq<State>, op: Op, t: State)
    requires Path(ops, path) && Changed(path[|ops|], op, t)
    requires TrackedIn(path[|ops|]) ==> (TrackedIn(t) <==> !Forgets(path[|ops|], op))
    ensures Path(ops + [op], path + [t])
  {
  }

  /** Discarded pages are all marked until the first request that forgets one, and not after it. */
  lemma {:induction false} FirstLoss(ops: seq<Op>, path: seq<State>, k: nat)
    requires Path(ops, path) && k <= |ops|
    ensures (forall j :: 0 <= j < k ==> !Forgets(path[j], ops[j])) <==> (forall j :: 0 <= j <= k ==> TrackedIn(path[j]))
  {
    if k > 0 {
      FirstLoss(ops, path, k - 1);
      assert TrackedIn(path[k - 1]) ==> (TrackedIn(path[k - 1 + 1]) <==> !Forgets(path[k - 1], ops[k - 1]));
    }
  }

  /**
   After any run: the lists are in order and disjoint, and the shared list and its
   count are exact.  Every state but the first follows from the one before, and a
   discarded page loses its mark exactly in the requests that forget one.  If
   memory does not run out, no discarded page is unmarked, and each area's list
   stands for the set of pages a user would compute from the requests alone.
   */
  method Run(ops: seq<Op>) returns (m: Ashmem, ghost path: seq<State>)
    ensures fresh(m) && m.Valid() && Path(ops, path) && path[|ops|] == StateOf(m)
    ensures (forall k :: 0 <= k < |ops| ==> HasMemory(ops[k])) ==> m.Tracks() && Stands(m.areas, m.ranges, AfterAll(ops))
  {
    m := new Ashmem();
    path := [StateOf(m)];
    assert ops[..0] == [];
    for k := 0 to |ops|
      invariant fresh(m) && m.Valid() && Path(ops[..k], path) && path[k] == StateOf(m)
      invariant (forall j :: 0 <= j < k ==> HasMemory(ops[j])) ==> m.Tracks() && Stands(m.areas, m.ranges, AfterAll(ops[..k]))
    {
      ghost var t := StateOf(m);
      Step(m, ops[k]);
      PathGrows(ops[..k], path, ops[k], StateOf(m));
      assert ops[..k + 1] == ops[..k] + [ops[k]] && ops[..k + 1][..k] == ops[..k];
      if HasMemory(ops[k]) && Stands(t.areas, t.ranges, AfterAll(ops[..k])) {
        StepStands(t, ops[k], StateOf(m), AfterAll(ops[..k]));
      }
      path := path + [StateOf(m)];
    }
    assert ops[..|ops|] == ops;
  }

  /** The shared count is the number of unpinned pages that can still be purged. */
  lemma CountExact(m: Ashmem, id: RangeId)
    requires m.Valid()
    ensures m.lruCount == |set i, p: nat | 0 <= i < |m.lru| && m.lru[i] in m.ranges && m.ranges[m.lru[i]].start <= p <= m.ranges[m.lru[i]].end
                                           :: (m.ranges[m.lru[i]].area, p)|
    ensures id in m.lru <==> id in m.ranges && !m.ranges[id].purged
  {
    assert m.lru[..|m.lru|] == m.lru;
    DiscardedCount(m.areas, m.ranges, m.lru, m.lruCount, |m.lru|);
    if id in m.ranges {
      assert RangeAt(m.areas, m.ranges, m.lru, id);
    }
  }

  lemma InsideCovers(ranges: map<RangeId, Range>, list: seq<RangeId>, s: nat, e: nat)
    requires s <= e
    ensures Inside(ranges, list, s, e) ==> Covers(ranges, list, e)
  {
    if Inside(ranges, list, s, e) {
      var x :| x in list && x in ranges && ranges[x].start <= s && e <= ranges[x].end;
      assert Has(ranges[x], e);
    }
  }

  /**
   Without memory a mark can be forgotten: page 0 is unpinned and purged, and then
   unpinned once more together with page 1, for which there is no memory.  Its
   contents are gone, and nothing says so any more.
   */
  method MarkForgotten() returns (m: Ashmem)
    ensures m.Valid() && !m.Tracks() && 1 in m.areas && (1, 0) in m.lost && !Marks(m.ranges, m.areas[1], 0)
  {
    m := new Ashmem();
    m.Open(1);
    var first := m.Unpin(1, 0, 0, true);
    ghost var id := m.lru[0];
    assert m.ranges[id] == Range(1, 0, 0, false);
    var freed := m.ShrinkScan(1, true);
    assert (1, 0) in m.lost;
    assert Covers(m.ranges, m.areas[1], 0) && !Covers(m.ranges, m.areas[1], 1);
    InsideCovers(m.ranges, m.areas[1], 0, 1);
    ghost var (ranges, list) := (m.ranges, m.areas[1]);
    var second := m.Unpin(1, 0, 1, false);
    assert Joined(ranges, list, 0, 1, 0);
  }

  /**
   So can pinning: pages 0 to 2 are unpinned and purged, and then page 1 is pinned.
   With no memory for a range of page 2, that is pinned unseen.
   */
  method TailForgotten() returns (m: Ashmem)
    ensures m.Valid() && !m.Tracks() && 1 in m.areas && (1, 2) in m.lost && !Marks(m.ranges, m.areas[1], 2)
  {
    m := new Ashmem();
    m.Open(1);
    var first := m.Unpin(1, 0, 2, true);
    ghost var id := m.lru[0];
    assert m.ranges[id] == Range(1, 0, 2, false);
    var freed := m.ShrinkScan(1, true);
    assert (1, 2) in m.lost;
    var _ := m.Pin(1, 1, 1, false);
  }
}
