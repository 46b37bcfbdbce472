/** The driver's commands on nodes and references. */
module NodeDriver {
  import opened Wrappers
  import opened NodeCounts
  import opened NodeTable
  import opened NodeSteps
  import opened NodeAlerts

  // --- choosing a descriptor -----------------------------------------------

  predicate Least(s: set<nat>, m: nat) {
    m in s && forall x :: x in s ==> m <= x
  }

  lemma {:induction false} LeastExists(s: set<nat>, a: nat)
    requires a in s
    ensures exists m :: Least(s, m)
    decreases a
  {
    if !Least(s, a) {
      var x :| x in s && x < a;
      LeastExists(s, x);
    }
  }

  function LeastOf(s: set<nat>): (m: nat)
    requires s != {}
    ensures Least(s, m)
  {
    assert exists m :: Least(s, m) by {
      var a :| a in s;
      LeastExists(s, a);
    }
    var m :| Least(s, m);
    m
  }

  /** The members of `s` in ascending order: the order in which the tree is walked. */
  function Ascending(s: set<nat>): (q: seq<nat>)
    ensures forall x :: x in s <==> x in q
    ensures forall i, j :: 0 <= i < j < |q| ==> q[i] < q[j]
  {
    if s == {} then []
    else
      var m := LeastOf(s);
      var rest := Ascending(s - {m});
      assert forall i :: 0 <= i < |rest| ==> rest[i] in s - {m} && m < rest[i];
      assert forall x :: x in s <==> x == m || x in rest;
      [m] + rest
  }

  /** The walk that picks a new descriptor: the smallest one from `start` on that is not in use. */
  method PickDesc(used: set<nat>, start: nat) returns (d: nat)
    requires start <= 1
    ensures d >= start && d !in used
    ensures forall x :: start <= x < d ==> x in used
  {
    d := start;
    var q := Ascending(used);
    var i := 0;
    while i < |q|
      invariant 0 <= i <= |q| && d >= start
      invariant forall j :: 0 <= j < i ==> q[j] < d
      invariant forall x :: start <= x < d ==> x in used
    {
      if q[i] > d {
        break;
      }
      d := q[i] + 1;
      i := i + 1;
    }
    forall x | x in used ensures x != d {
      var j :| 0 <= j < |q| && q[j] == x;
      assert i < |q| && i < j ==> q[i] < q[j];
    }
  }

  // --- what owners have been told -------------------------------------------

  /** An object of a process, by the pointer the process knows it under. */
  type Object = (ProcId, nat)

  function LogOf(told: map<Object, seq<Notice>>, k: Object): seq<Notice> {
    if k in told then told[k] else []
  }

  /** What the owner of object `k` holds: nothing if the object has no node at present. */
  function FlagsAt(t: Table, k: Object): Holding {
    if k in t.byPtr && t.byPtr[k] in t.nodes then Holding(t.nodes[t.byPtr[k]].hasWeak, t.nodes[t.byPtr[k]].hasStrong)
    else Holding(false, false)
  }

  predicate LogAt(t: Table, told: map<Object, seq<Notice>>, k: Object) {
    ObeyAll(Holding(false, false), LogOf(told, k)) == Some(FlagsAt(t, k))
  }

  /**
   The notices about every object are in order, from its first node through all
   that followed it, and lead to what is held now.
   */
  ghost predicate Logged(t: Table, told: map<Object, seq<Notice>>) {
    forall k {:trigger LogAt(t, told, k)} :: LogAt(t, told, k)
  }

  /** Changes that keep the nodes, their objects and their flags keep the log. */
  lemma LogKept(t: Table, t': Table, told: map<Object, seq<Notice>>)
    requires Logged(t, told) && t'.byPtr == t.byPtr && t'.nodes.Keys == t.nodes.Keys
    requires forall n :: n in t.nodes ==> t'.nodes[n].hasWeak == t.nodes[n].hasWeak && t'.nodes[n].hasStrong == t.nodes[n].hasStrong
    ensures Logged(t', told)
  {
    forall k
      ensures LogAt(t', told, k)
    {
      assert LogAt(t, told, k);
    }
  }

  /** A notice about a node is one about its object, and about no other. */
  lemma Noted(t: Table, told: map<Object, seq<Notice>>, n: NodeId, m: Node, notice: Notice)
    requires Logged(t, told) && Owned(t) && n in t.nodes && t.nodes[n].proc.Some?
    requires Obey(Holding(t.nodes[n].hasWeak, t.nodes[n].hasStrong), notice) == Some(Holding(m.hasWeak, m.hasStrong))
    ensures var k := (t.nodes[n].proc.value, t.nodes[n].ptr);
            Logged(WithNode(t, n, m), told[k := LogOf(told, k) + [notice]])
  {
    var k := (t.nodes[n].proc.value, t.nodes[n].ptr);
    var t', told' := WithNode(t, n, m), told[k := LogOf(told, k) + [notice]];
    assert OwnedAt(t, n) && LogAt(t, told, k);
    assert told'[k][..|told'[k]| - 1] == LogOf(told, k);
    forall j
      ensures LogAt(t', told', j)
    {
      assert LogAt(t, told, j);
      assert j in t.byPtr ==> PtrAt(t, j);
    }
  }

  /** A node that nobody holds leaves no trace. */
  lemma LogFreed(t: Table, told: map<Object, seq<Notice>>, n: NodeId)
    requires Logged(t, told) && Owned(t) && n in t.nodes
    requires t.nodes[n].proc.Some? ==> !t.nodes[n].hasWeak && !t.nodes[n].hasStrong
    ensures Logged(WithoutNode(t, n), told)
  {
    var t' := WithoutNode(t, n);
    assert OwnedAt(t, n);
    forall k
      ensures LogAt(t', told, k)
    {
      assert LogAt(t, told, k);
      assert k in t.byPtr ==> PtrAt(t, k);
    }
  }

  /** A new node starts where the last one of its object ended. */
  lemma LogNew(t: Table, told: map<Object, seq<Notice>>, n: NodeId, m: Node, p: ProcId)
    requires Logged(t, told) && n !in t.nodes && (p, m.ptr) !in t.byPtr && !m.hasWeak && !m.hasStrong
    requires forall k :: k in t.byPtr ==> t.byPtr[k] != n
    ensures Logged(WithNewNode(t, n, m, p), told)
  {
    var t' := WithNewNode(t, n, m, p);
    forall k
      ensures LogAt(t', told, k)
    {
      assert LogAt(t, told, k);
    }
  }

  /** The context manager's node counts as acquired from the start. */
  lemma LogContext(t: Table, told: map<Object, seq<Notice>>, n: NodeId, m: Node, p: ProcId)
    requires Logged(t, told) && n !in t.nodes && (p, m.ptr) !in t.byPtr && m.hasWeak && m.hasStrong
    requires forall k :: k in t.byPtr ==> t.byPtr[k] != n
    ensures Logged(WithNewNode(t, n, m, p).(context := Some(n)), told[(p, m.ptr) := LogOf(told, (p, m.ptr)) + [Presumed]])
  {
    var key := (p, m.ptr);
    var t', told' := WithNewNode(t, n, m, p).(context := Some(n)), told[key := LogOf(told, key) + [Presumed]];
    assert LogAt(t, told, key);
    PresumedHeld(LogOf(told, key));
    forall k
      ensures LogAt(t', told', k)
    {
      assert LogAt(t, told, k);
    }
  }

  lemma PresumedHeld(log: seq<Notice>)
    requires ObeyAll(Holding(false, false), log) == Some(Holding(false, false))
    ensures ObeyAll(Holding(false, false), log + [Presumed]) == Some(Holding(true, true))
  {
    var one := log + [Presumed];
    assert one[..|one| - 1] == log;
  }

  /** The log of the objects of process `p` ends with it. */
  function LogWithout(told: map<Object, seq<Notice>>, p: ProcId): map<Object, seq<Notice>> {
    map k | k in told && k.0 != p :: told[k]
  }

  lemma LogExit(t: Table, told: map<Object, seq<Notice>>, p: ProcId)
    requires Logged(t, told) && Owned(t)
    ensures Logged(Releasing(t, p, NodesOf(t, p)), LogWithout(told, p))
  {
    var t', told' := Releasing(t, p, NodesOf(t, p)), LogWithout(told, p);
    forall k
      ensures LogAt(t', told', k)
    {
      assert LogAt(t, told, k);
      assert k in t.byPtr ==> PtrAt(t, k);
    }
  }

  // --- what leaves the table --------------------------------------------------

  /** Nodes only leave, and an object whose node leaves has none. */
  ghost predicate Shrinks(t: Table, t': Table) {
    && (forall k :: k in t'.byPtr ==> k in t.byPtr)
    && (forall n :: n in t'.nodes ==> n in t.nodes && t'.nodes[n].proc == t.nodes[n].proc && t'.nodes[n].ptr == t.nodes[n].ptr)
    && (forall n :: n in t.nodes && n !in t'.nodes && t.nodes[n].proc.Some? ==> (t.nodes[n].proc.value, t.nodes[n].ptr) !in t'.byPtr)
  }

  lemma ShrinksOn(t: Table, t1: Table, t2: Table)
    requires Shrinks(t, t1) && Shrinks(t1, t2)
    ensures Shrinks(t, t2)
  {
  }

  /** Fewer strong references, and perhaps a work entry to tell the owner. */
  predicate Loosened(m: Node, m': Node) {
    && m' == m.(internalStrong := m'.internalStrong, queued := m'.queued) && (m.queued ==> m'.queued)
    && (m'.queued && !m.queued ==> m.proc.Some? && (m.hasStrong || m.hasWeak))
  }

  /** No buffer, and no owner that lives, has hold of the node. */
  predicate Unused(m: Node) {
    m.localStrong == 0 && m.localWeak == 0 && (m.proc.Some? ==> !m.hasWeak && !m.hasStrong)
  }

  /** Reference `r` has gone; its node stays, loosened, or goes unused, and no other node changes. */
  ghost predicate LosesRef(t: Table, t': Table, r: RefId) {
    && r in t.refs
    && (forall n :: n in t.nodes && n != t.refs[r].node ==> n in t'.nodes && t'.nodes[n] == t.nodes[n])
    && var n := t.refs[r].node;
       n in t.nodes && (if n in t'.nodes then Loosened(t.nodes[n], t'.nodes[n]) else Unused(t.nodes[n]))
  }

  /** The nodes that `p` does not own stay, loosened, or go unused. */
  ghost predicate Spared(t: Table, t': Table, p: ProcId) {
    forall n :: n in t.nodes && t.nodes[n].proc != Some(p) ==>
      if n in t'.nodes then Loosened(t.nodes[n], t'.nodes[n]) else Unused(t.nodes[n])
  }

  lemma SparedOn(t: Table, t1: Table, t2: Table, p: ProcId)
    requires Spared(t, t1, p) && Shrinks(t1, t2) && exists r :: LosesRef(t1, t2, r)
    ensures Spared(t, t2, p)
  {
    var r :| LosesRef(t1, t2, r);
  }

  /** A node whose owner has gone: nothing of its owner's is counted, and no work is left. */
  predicate LeftAlone(m: Node, m': Node) {
    m' == m.(proc := None, localStrong := 0, localWeak := 0, queued := false, internalStrong := m'.internalStrong)
  }

  lemma OrphansLeft(t: Table, t1: Table, t2: Table, p: ProcId)
    requires t1 == Releasing(t, p, NodesOf(t, p)) && Inv(t2) && Spared(t1, t2, p) && Alerted(t1, t2) && Shrinks(t1, t2)
    ensures forall n :: n in NodesOf(t, p) ==>
              (n in t2.nodes <==> HasRefs(t2.refs, n)) && (n in t2.nodes ==> LeftAlone(t.nodes[n], t2.nodes[n]))
  {
    assert forall r :: r in t2.refs ==> RefAt(t2, r);
    forall n | n in NodesOf(t, p) && n in t2.nodes
      ensures HasRefs(t2.refs, n) && LeftAlone(t.nodes[n], t2.nodes[n])
    {
      assert n in t1.nodes && Alert(t1, n) && Alert(t2, n);
      assert Loosened(t1.nodes[n], t2.nodes[n]);
    }
  }

  /** Only counters and the work entry differ: whose the node is, and what its owner was told and has answered, is as it was. */
  predicate SameBut(m: Node, m': Node) {
    m' == m.(internalStrong := m'.internalStrong, localStrong := m'.localStrong, localWeak := m'.localWeak, queued := m'.queued)
  }

  /** So it is for every node that stays. */
  ghost predicate Steady(t: Table, t': Table) {
    forall n :: n in t.nodes && n in t'.nodes ==> SameBut(t.nodes[n], t'.nodes[n])
  }

  lemma SteadyOn(t: Table, t1: Table, t2: Table)
    requires Steady(t, t1) && Steady(t1, t2) && (t2.nodes.Keys <= t1.nodes.Keys || t.nodes.Keys <= t1.nodes.Keys)
    ensures Steady(t, t2)
  {
  }

  lemma IncSteady(t: Table, r: RefId, strong: bool, list: bool)
    requires r in t.refs && t.refs[r].node in t.nodes
    ensures Steady(t, IncRefTable(t, r, strong, list))
  {
    assert SameBut(t.nodes[t.refs[r].node], IncRefNode(t, r, strong, list).node);
  }

  /** The node after a count was added to reference `r`, or refused: only a first count reaches it, and is announced if the owner holds less. */
  ghost predicate Recounted(t: Table, t': Table, r: RefId, strong: bool, list: bool, ok: bool) {
    && r in t.refs && t.refs[r].node in t.nodes
    && var (ref, n) := (t.refs[r], t.refs[r].node);
       var (m, first) := (t.nodes[n], (if strong then ref.strong else ref.weak) == 0);
       t'.nodes == t.nodes[n := m.(internalStrong := m.internalStrong + (if strong && first && ok then 1 else 0),
                                   queued := m.queued || (first && list && !(if strong then m.hasStrong else m.hasWeak)))]
  }

  /** Process `q` has no count of this kind on node `n`. */
  ghost predicate Uncounted(refs: map<RefId, Ref>, q: ProcId, n: NodeId, strong: bool) {
    forall r :: r in refs && refs[r].proc == q && refs[r].node == n ==> (if strong then refs[r].strong else refs[r].weak) == 0
  }

  lemma IncRecounts(t: Table, r: RefId, strong: bool, list: bool)
    requires r in t.refs && t.refs[r].node in t.nodes
    ensures Recounted(t, IncRefTable(t, r, strong, list), r, strong, list, IncRefNode(t, r, strong, list).ok)
  {
  }

  lemma IncAlerts(t: Table, r: RefId, strong: bool, list: bool)
    requires Inv(t) && r in t.refs && t.refs[r].node in t.nodes
    ensures Alerted(t, IncRefTable(t, r, strong, list))
  {
    var t', n := IncRefTable(t, r, strong, list), t.refs[r].node;
    assert CountedAt(t, n);
    SameRefs(t.refs, r, t'.refs[r]);
    assert HasRefs(t.refs, n);
    if Alert(t, n) {
      IncHeeded(t.nodes[n], strong, list, t.context == Some(n), true);
    }
    OneAlert(t, t', n);
  }

  lemma DecAlerts(t: Table, r: RefId, strong: bool)
    requires Inv(t) && r in t.refs && t.refs[r].node in t.nodes && (if strong then t.refs[r].strong else t.refs[r].weak) > 0
    ensures Alerted(t, DecRefTable(t, r, strong))
  {
    var t', n := DecRefTable(t, r, strong), t.refs[r].node;
    assert CountedAt(t, n);
    NoRefsNoStrong(t.refs, n);
    SameRefs(t.refs, r, t'.refs[r]);
    assert HasRefs(t.refs, n);
    if Alert(t, n) && strong {
      DecHeeded(t.nodes[n], true, true, true, true);
      DecRefKeeps(t, r, strong);
    }
    OneAlert(t, t', n);
  }

  lemma UnreferenceAlerts(t: Table, r: RefId)
    requires Inv(t) && r in t.refs && t.refs[r].node in t.nodes
    ensures var (t', n) := (WithoutRef(t, r, AfterUnreference(t, r)), t.refs[r].node);
            Alerted(t, if Unreferenced(t, r).Some? then t' else WithoutNode(t', n))
  {
    var t', n := WithoutRef(t, r, AfterUnreference(t, r)), t.refs[r].node;
    FewerRefs(t.refs, r);
    assert HasRefs(t.refs, n);
    if Unreferenced(t, r).Some? {
      if Alert(t, n) {
        UnreferencedHeeded(t, r);
      }
      UnreferencedWanted(t, r);
      OneAlert(t, t', n);
    } else {
      StillAlert(t, WithoutNode(t', n));
    }
  }

  lemma UnreferencedWanted(t: Table, r: RefId)
    requires Inv(t) && r in t.refs && t.refs[r].node in t.nodes
    ensures Unreferenced(t, r).Some? ==> Wanted(Unreferenced(t, r).value, HasRefs(t.refs - {r}, t.refs[r].node))
  {
    var ref, n := t.refs[r], t.refs[r].node;
    assert CountedAt(t, n);
    NoRefsNoStrong(t.refs, n);
    StrongRemove(t.refs, r, n);
    NoRefsNoStrong(t.refs - {r}, n);
    var dec := if ref.strong > 0 then DecNode(t.nodes[n], true, true, true) else Some(t.nodes[n]);
    if dec.Some? {
      DecWanted(dec.value, false, true, HasRefs(t.refs - {r}, n));
    }
  }

  lemma UnreferencedHeeded(t: Table, r: RefId)
    requires Inv(t) && r in t.refs && t.refs[r].node in t.nodes && Heeded(t.nodes[t.refs[r].node], true)
    ensures Unreferenced(t, r).Some? ==> Heeded(Unreferenced(t, r).value, HasRefs(t.refs - {r}, t.refs[r].node))
  {
    var ref, n := t.refs[r], t.refs[r].node;
    assert CountedAt(t, n);
    NoRefsNoStrong(t.refs, n);
    StrongRemove(t.refs, r, n);
    NoRefsNoStrong(t.refs - {r}, n);
    var m := t.nodes[n];
    var left := HasRefs(t.refs - {r}, n);
    if ref.strong > 0 {
      DecHeeded(m, true, true, true, true);
      var dec := DecNode(m, true, true, true);
      assert dec.Some?;
      DecHeeded(dec.value, false, true, true, left);
    } else {
      DecHeeded(m, false, true, true, left);
    }
  }

  lemma HoldAlerts(t: Table, k: nat, n: NodeId, strong: bool)
    requires Inv(t) && k < |t.buffers| && n in t.nodes
    requires t.context == Some(n) || (HasRefs(t.refs, n) && (strong ==> StrongRefs(t.refs, n) > 0))
    ensures Alerted(t, TakeHold(t, k, n, strong))
  {
    assert CountedAt(t, n);
    OneAlert(t, TakeHold(t, k, n, strong), n);
  }

  /** Nothing changes for the others when a node goes. */
  lemma FreedAlerts(t: Table, n: NodeId)
    requires n in t.nodes
    ensures Alerted(t, WithoutNode(t, n))
  {
    StillAlert(t, WithoutNode(t, n));
  }

  /** Nor for any when only buffers or the context manager do. */
  lemma SameAlerts(t: Table, t': Table)
    requires t'.nodes == t.nodes && t'.refs == t.refs
    ensures Alerted(t, t')
  {
    StillAlert(t, t');
  }

  /** A new node is needed by nobody. */
  lemma NewAlerts(t: Table, n: NodeId, m: Node, p: ProcId)
    requires Inv(t) && n !in t.nodes && m.proc.Some? && UpToDate(m, false)
    ensures Alerted(t, WithNewNode(t, n, m, p))
  {
    var t' := WithNewNode(t, n, m, p);
    assert forall r :: r in t.refs ==> RefAt(t, r);
    assert !HasRefs(t.refs, n);
    forall x | x in t.nodes
      ensures Alert(t', x) == Alert(t, x) && WantedAt(t', x) == WantedAt(t, x)
    {
    }
    assert Alert(t', n);
  }

  /** Node `n` becomes `m`. */
  lemma ChangeAlerts(t: Table, n: NodeId, m: Node)
    requires n in t.nodes && (Alert(t, n) ==> Heeded(m, HasRefs(t.refs, n))) && Wanted(m, HasRefs(t.refs, n))
    ensures Alerted(t, WithNode(t, n, m))
  {
    OneAlert(t, WithNode(t, n, m), n);
  }

  /** A reference is made if there is none, and a count is added to it. */
  lemma GivenAlerts(t: Table, t1: Table, t2: Table, r: RefId, ref: RefId, strong: bool, list: bool, ok: bool)
    requires Inv(t1) && ref in t1.refs && t1.refs[ref].node in t1.nodes && Recounted(t1, t2, ref, strong, list, ok)
    requires t1 == t || (ref == r && r !in t.refs && t1 == WithNewRef(t, r, t1.refs[r]) && t1.refs[r].strong == 0 && t1.refs[r].weak == 0)
    requires t2.refs == t1.refs || (ok && t2.refs == t1.refs[ref := Stepped(t1.refs[ref], strong, 1)])
    requires ok <==> Countable(t1, ref, strong, list)
    requires list || t1 == t || HasRefs(t.refs, t1.refs[ref].node) || t.context == Some(t1.refs[ref].node)
    ensures Alerted(t, t2)
  {
    var n := t1.refs[ref].node;
    assert CountedAt(t1, n);
    SameRefs(t1.refs, ref, t2.refs[ref]);
    assert HasRefs(t1.refs, n);
    if t1 != t {
      MoreRefs(t.refs, r, t1.refs[r]);
    }
    OneAlert(t, t2, n);
  }

  lemma AcknowledgeAlerts(t: Table, n: NodeId, strong: bool)
    requires Inv(t) && n in t.nodes && t.nodes[n].proc.Some?
    requires if strong then t.nodes[n].pendingStrong else t.nodes[n].pendingWeak
    ensures var dec := Acknowledged(t.nodes[n], strong, HasRefs(t.refs, n));
            dec.Some? ==> Alerted(t, WithNode(t, n, dec.value))
  {
    var m, refs := t.nodes[n], HasRefs(t.refs, n);
    assert CountedAt(t, n);
    var dec := Acknowledged(m, strong, refs);
    if dec.Some? {
      if Alert(t, n) {
        DecHeeded(if strong then m.(pendingStrong := false) else m.(pendingWeak := false), strong, false, refs, refs);
      }
      ChangeAlerts(t, n, dec.value);
    }
  }

  /** Reading ends the work entry only when there is no more to tell. */
  lemma ReadAlerts(t: Table, n: NodeId)
    requires Inv(t) && n in t.nodes && t.nodes[n].queued && t.nodes[n].proc.Some?
    ensures var r := ReadNode(t.nodes[n], HasRefs(t.refs, n)); !r.Gone? ==> Alerted(t, WithNode(t, n, r.node))
  {
    assert CountedAt(t, n);
    NoRefsNoStrong(t.refs, n);
    var r := ReadNode(t.nodes[n], HasRefs(t.refs, n));
    if !r.Gone? {
      ChangeAlerts(t, n, r.node);
    }
  }

  /** An exiting owner need not be told. */
  lemma ReleasingAlerts(t: Table, p: ProcId)
    ensures Alerted(t, Releasing(t, p, NodesOf(t, p)))
  {
    var t' := Releasing(t, p, NodesOf(t, p));
    forall n | n in t'.nodes
      ensures (Alert(t, n) ==> Alert(t', n)) && (WantedAt(t, n) ==> WantedAt(t', n))
    {
    }
  }

  lemma BackAlerts(t: Table, k: nat)
    requires Inv(t) && k < |t.buffers| && |t.buffers[k].holds| > 0 && t.buffers[k].holds[0].Local?
    requires t.buffers[k].holds[0].node in t.nodes
    ensures var h := t.buffers[k].holds[0];
            var (m, refs) := (t.nodes[h.node], HasRefs(t.refs, h.node));
            var t' := GiveBack(t, k, GivenBack(m, h.strong, refs));
            Alerted(t, if DecNode(m, h.strong, false, refs).Some? then t' else WithoutNode(t', h.node))
  {
    var h := t.buffers[k].holds[0];
    var m, refs := t.nodes[h.node], HasRefs(t.refs, h.node);
    var t' := GiveBack(t, k, GivenBack(m, h.strong, refs));
    FirstHold(t, k);
    assert CountedAt(t, h.node);
    NoRefsNoStrong(t.refs, h.node);
    if DecNode(m, h.strong, false, refs).Some? {
      if Alert(t, h.node) {
        DecHeeded(m, h.strong, false, refs, refs);
      }
      DecWanted(m, h.strong, false, refs);
      OneAlert(t, t', h.node);
    } else {
      StillAlert(t, WithoutNode(t', h.node));
    }
  }

  /** The last strong count of a reference is one of its node's. */
  ghost predicate Discounted(t: Table, t': Table, r: RefId, strong: bool) {
    && r in t.refs && t.refs[r].node in t.nodes && t.refs[r].node in t'.nodes
    && var n := t.refs[r].node;
       && t'.nodes == t.nodes[n := t'.nodes[n]]
       && (if strong && t.refs[r].strong == 1 then Lessened(t.nodes[n], t'.nodes[n], true, true, true) else t'.nodes[n] == t.nodes[n])
  }

  lemma DecDiscounts(t: Table, r: RefId, strong: bool)
    requires Inv(t) && r in t.refs && (if strong then t.refs[r].strong else t.refs[r].weak) > 0
    ensures t.refs[r].node in t.nodes && Discounted(t, DecRefTable(t, r, strong), r, strong)
  {
    DecRefKeeps(t, r, strong);
    DecLessens(t.nodes[t.refs[r].node], true, true, true);
  }

  /** A node without reference `r`: its strong count is gone, if it had any, and then a weak one. */
  ghost predicate Unlinked(t: Table, t': Table, r: RefId) {
    && r in t.refs && t.refs[r].node in t.nodes
    && var n := t.refs[r].node;
       n in t'.nodes ==>
         exists m ::
           && (if t.refs[r].strong > 0 then Lessened(t.nodes[n], m, true, true, true) else m == t.nodes[n])
           && Lessened(m, t'.nodes[n], false, true, HasRefs(t'.refs, n))
  }

  lemma UnreferenceUnlinks(t: Table, r: RefId)
    requires Inv(t) && r in t.refs && t.refs[r].node in t.nodes
    ensures Unreferenced(t, r).Some? ==> Unlinked(t, WithoutRef(t, r, AfterUnreference(t, r)), r)
  {
    var ref := t.refs[r];
    var m := t.nodes[ref.node];
    DecLessens(m, true, true, true);
    var dec := if ref.strong > 0 then DecNode(m, true, true, true) else Some(m);
    if dec.Some? {
      DecLessens(dec.value, false, true, HasRefs(t.refs - {r}, ref.node));
    }
  }

  /** What a buffer gives back leaves its node with one count less. */
  lemma BackExact(t: Table, k: nat)
    requires Inv(t) && k < |t.buffers| && |t.buffers[k].holds| > 0 && t.buffers[k].holds[0].Local?
    ensures var h := t.buffers[k].holds[0];
            && h.node in t.nodes
            && var (m, refs) := (t.nodes[h.node], HasRefs(t.refs, h.node));
            && var t' := GiveBack(t, k, GivenBack(m, h.strong, refs));
            && Steady(t, t') && Shrinks(t, t')
            && (DecNode(m, h.strong, false, refs).Some? ==> Lessened(m, t'.nodes[h.node], h.strong, false, refs))
  {
    var h := t.buffers[k].holds[0];
    GivenBackKeeps(t, k);
    BackSteady(t.nodes[h.node], h.strong, HasRefs(t.refs, h.node));
    DecLessens(t.nodes[h.node], h.strong, false, HasRefs(t.refs, h.node));
  }

  lemma DecSteady(t: Table, r: RefId, strong: bool)
    requires r in t.refs && t.refs[r].node in t.nodes && (if strong then t.refs[r].strong else t.refs[r].weak) > 0
    ensures Steady(t, DecRefTable(t, r, strong))
  {
  }

  /** Only node `n` changes, or goes. */
  ghost predicate OnlyNode(t: Table, t': Table, n: NodeId) {
    forall x :: x != n ==> (x in t'.nodes <==> x in t.nodes) && (x in t.nodes ==> t'.nodes[x] == t.nodes[x])
  }

  lemma OnlyNodeChanges(t: Table, n: NodeId)
    requires n in t.nodes
    ensures OnlyNode(t, WithoutNode(t, n), n)
    ensures forall m :: OnlyNode(t, WithNode(t, n, m), n)
  {
  }

  /** Every count can be added to a reference to the context manager's node. */
  lemma ManagerCountable(t: Table, r: RefId, strong: bool)
    requires Inv(t) && r in t.refs && t.context == Some(t.refs[r].node)
    ensures Countable(t, r, strong, false)
  {
    assert CountedAt(t, t.refs[r].node);
  }

  lemma ReplacedAt(refs: map<RefId, Ref>, r: RefId, ref: Ref)
    ensures refs[r := ref] - {r} == refs - {r}
  {
  }

  lemma HoldSteady(t: Table, k: nat, n: NodeId, strong: bool)
    requires k < |t.buffers| && n in t.nodes
    ensures Steady(t, TakeHold(t, k, n, strong))
  {
  }

  lemma BackSteady(m: Node, strong: bool, refs: bool)
    ensures SameBut(m, GivenBack(m, strong, refs))
  {
  }

  lemma LosesSteady(t: Table, t': Table, r: RefId)
    requires LosesRef(t, t', r)
    ensures Steady(t, t')
  {
  }

  lemma SparedThrough(t: Table, t1: Table, t2: Table, p: ProcId)
    requires Spared(t, t1, p) && Spared(t1, t2, p) && forall n :: n in t2.nodes ==> n in t1.nodes
    ensures Spared(t, t2, p)
  {
  }

  // --- theorems about single steps ------------------------------------------

  /** Passing on a strong handle always succeeds in taking another strong reference to the node. */
  lemma ForwardNeverRejected(t: Table, r: RefId)
    requires Inv(t) && r in t.refs && t.refs[r].strong > 0
    ensures t.refs[r].node in t.nodes
    ensures IncNode(t.nodes[t.refs[r].node], true, true, false, t.context == Some(t.refs[r].node)).ok
  {
    assert RefAt(t, r);
    assert CountedAt(t, t.refs[r].node);
    NoRefsNoStrong(t.refs, t.refs[r].node);
  }

  /** A referenced node exists, and so does the reference it is counted by. */
  lemma ReferencedNode(t: Table, r: RefId)
    requires Inv(t) && r in t.refs
    ensures t.refs[r].node in t.nodes && HasRefs(t.refs, t.refs[r].node)
    ensures t.refs[r].strong > 0 ==> StrongRefs(t.refs, t.refs[r].node) > 0
  {
    assert RefAt(t, r);
    NoRefsNoStrong(t.refs, t.refs[r].node);
  }

  /** Reference `r` with one more, or one less, strong or weak count. */
  function Stepped(ref: Ref, strong: bool, step: int): Ref
    requires (if strong then ref.strong else ref.weak) + step >= 0
  {
    if strong then ref.(strong := ref.strong + step) else ref.(weak := ref.weak + step)
  }

  /** The node part of binder_inc_ref: only a first count reaches the node. */
  function IncRefNode(t: Table, r: RefId, strong: bool, list: bool): IncResult
    requires r in t.refs && t.refs[r].node in t.nodes
  {
    var ref := t.refs[r];
    if (if strong then ref.strong else ref.weak) == 0 then
      IncNode(t.nodes[ref.node], strong, true, list, t.context == Some(ref.node))
    else IncResult(t.nodes[ref.node], true)
  }

  function IncRefTable(t: Table, r: RefId, strong: bool, list: bool): Table
    requires r in t.refs && t.refs[r].node in t.nodes
  {
    var inc := IncRefNode(t, r, strong, list);
    WithRef(t, r, if inc.ok then Stepped(t.refs[r], strong, 1) else t.refs[r], inc.node)
  }

  /**
   A count can be added to reference `r`.  A strong one needs a work list, another
   strong reference or the context manager's node; a weak one an owner that holds
   the node or is about to be told, and otherwise a work list.
   */
  predicate Countable(t: Table, r: RefId, strong: bool, list: bool)
    requires r in t.refs
  {
    var n := t.refs[r].node;
    if strong then list || StrongRefs(t.refs, n) > 0 || t.context == Some(n)
    else list || t.refs[r].weak > 0 || (n in t.nodes && (t.nodes[n].hasWeak || t.nodes[n].queued))
  }

  lemma IncRefKeeps(t: Table, r: RefId, strong: bool, list: bool)
    requires Inv(t) && r in t.refs
    ensures t.refs[r].node in t.nodes && Inv(IncRefTable(t, r, strong, list))
    ensures IncRefNode(t, r, strong, list).ok <==> Countable(t, r, strong, list)
    ensures var n := t.refs[r].node;
            var m := IncRefNode(t, r, strong, list).node;
            m.hasWeak == t.nodes[n].hasWeak && m.hasStrong == t.nodes[n].hasStrong
  {
    var ref := t.refs[r];
    assert RefAt(t, r) && CountedAt(t, ref.node);
    NoRefsNoStrong(t.refs, ref.node);
    var inc := IncRefNode(t, r, strong, list);
    var ref' := if inc.ok then Stepped(ref, strong, 1) else ref;
    StrongChange(t.refs, r, ref', ref.node);
    WithRefKeeps(t, r, ref', inc.node);
  }

  /** binder_dec_ref up to the deletion of an unused reference. */
  function DecRefTable(t: Table, r: RefId, strong: bool): Table
    requires r in t.refs && t.refs[r].node in t.nodes && (if strong then t.refs[r].strong else t.refs[r].weak) > 0
  {
    var ref, n := t.refs[r], t.refs[r].node;
    var dec := if strong && ref.strong == 1 then DecNode(t.nodes[n], true, true, HasRefs(t.refs, n)) else None;
    WithRef(t, r, Stepped(ref, strong, -1), if dec.Some? then dec.value else t.nodes[n])
  }

  lemma DecRefKeeps(t: Table, r: RefId, strong: bool)
    requires Inv(t) && r in t.refs && (if strong then t.refs[r].strong else t.refs[r].weak) > 0
    ensures t.refs[r].node in t.nodes && HasRefs(t.refs, t.refs[r].node)
    ensures strong ==> DecNode(t.nodes[t.refs[r].node], true, true, true).Some?
    ensures Inv(DecRefTable(t, r, strong))
    ensures var n := t.refs[r].node;
            var m := DecRefTable(t, r, strong).nodes[n];
            m.hasWeak == t.nodes[n].hasWeak && m.hasStrong == t.nodes[n].hasStrong
  {
    var ref := t.refs[r];
    ReferencedNode(t, r);
    assert CountedAt(t, ref.node);
    var t' := DecRefTable(t, r, strong);
    StrongChange(t.refs, r, t'.refs[r], ref.node);
    WithRefKeeps(t, r, t'.refs[r], t'.nodes[ref.node]);
  }

  // --- buffers that hold nodes ----------------------------------------------

  lemma HoldsAppend(holds: seq<Hold>, h: Hold)
    ensures forall x, s :: HoldsIn(holds + [h], x, s) == HoldsIn(holds, x, s) + AsNat(h.Local? && h.node == x && h.strong == s)
  {
    forall x, s ensures HoldsIn(holds + [h], x, s) == HoldsIn(holds, x, s) + AsNat(h.Local? && h.node == x && h.strong == s) {
      HoldsInSplit(holds, [h], x, s);
    }
  }

  function TakeHold(t: Table, k: nat, n: NodeId, strong: bool): Table
    requires k < |t.buffers| && n in t.nodes
  {
    var m := t.nodes[n];
    WithHolds(t, k, t.buffers[k].holds + [Local(n, m.ptr, strong)], n, IncNode(m, strong, false, false, t.context == Some(n)).node)
  }

  lemma IncLocalCounted(m: Node, strong: bool, strongRefs: nat, holdS: nat, holdW: nat, context: bool)
    requires Counted(m, strongRefs, holdS, holdW, context) && m.proc.Some?
    ensures var m' := IncNode(m, strong, false, false, context).node;
            && Counted(m', strongRefs, holdS + AsNat(strong), holdW + AsNat(!strong), context)
            && m'.proc == m.proc && m'.ptr == m.ptr && m'.hasWeak == m.hasWeak && m'.hasStrong == m.hasStrong
  {
  }

  lemma TakeHoldKeeps(t: Table, k: nat, n: NodeId, strong: bool)
    requires Inv(t) && k < |t.buffers| && n in t.nodes && t.nodes[n].proc == Some(t.buffers[k].proc)
    ensures Inv(TakeHold(t, k, n, strong))
  {
    var m := t.nodes[n];
    var holds := t.buffers[k].holds + [Local(n, m.ptr, strong)];
    var m' := IncNode(m, strong, false, false, t.context == Some(n)).node;
    assert CountedAt(t, n);
    IncLocalCounted(m, strong, StrongRefs(t.refs, n), HoldCount(t.buffers, n, true), HoldCount(t.buffers, n, false),
                    t.context == Some(n));
    HoldsAppend(t.buffers[k].holds, Local(n, m.ptr, strong));
    TakeHoldCounted(t, k, n, strong, m');
    forall i | 0 <= i < |holds| && holds[i].Local? && holds[i].node == n ensures holds[i].ptr == m.ptr {
      if i < |t.buffers[k].holds| {
        assert HoldAt(t, k, i);
      }
    }
    WithHoldsKeeps(t, k, holds, n, m');
  }

  lemma TakeHoldCounted(t: Table, k: nat, n: NodeId, strong: bool, m: Node)
    requires k < |t.buffers| && n in t.nodes
    requires Counted(m, StrongRefs(t.refs, n), HoldCount(t.buffers, n, true) + AsNat(strong),
                     HoldCount(t.buffers, n, false) + AsNat(!strong), t.context == Some(n))
    ensures CountedAt(WithHolds(t, k, t.buffers[k].holds + [Local(n, t.nodes[n].ptr, strong)], n, m), n)
  {
    var h := Local(n, t.nodes[n].ptr, strong);
    var b := Buffer(t.buffers[k].proc, t.buffers[k].holds + [h]);
    HoldsAppend(t.buffers[k].holds, h);
    HoldCountUpdate(t.buffers, k, b, n, true);
    HoldCountUpdate(t.buffers, k, b, n, false);
  }

  /** The first hold of buffer `k`, a node, is given back. */
  function GiveBack(t: Table, k: nat, m: Node): Table
    requires k < |t.buffers| && |t.buffers[k].holds| > 0 && t.buffers[k].holds[0].Local?
  {
    WithHolds(t, k, t.buffers[k].holds[1..], t.buffers[k].holds[0].node, m)
  }

  lemma FirstHold(t: Table, k: nat)
    requires Inv(t) && k < |t.buffers| && |t.buffers[k].holds| > 0 && t.buffers[k].holds[0].Local?
    ensures var h := t.buffers[k].holds[0];
            && h.node in t.nodes && t.nodes[h.node].proc == Some(t.buffers[k].proc) && t.nodes[h.node].ptr == h.ptr
            && (t.buffers[k].proc, h.ptr) in t.byPtr && t.byPtr[(t.buffers[k].proc, h.ptr)] == h.node
            && (if h.strong then t.nodes[h.node].localStrong else t.nodes[h.node].localWeak) > 0
  {
    var h := t.buffers[k].holds[0];
    assert HoldAt(t, k, 0);
    assert OwnedAt(t, h.node) && CountedAt(t, h.node);
    HoldCountDrop(t.buffers, k, h.node, h.strong);
  }

  /** Giving back a hold decrements the matching local counter, whatever else `m` changes about the work entry. */
  lemma GiveBackKeeps(t: Table, k: nat, m: Node)
    requires Inv(t) && k < |t.buffers| && |t.buffers[k].holds| > 0 && t.buffers[k].holds[0].Local?
    requires var h := t.buffers[k].holds[0];
             && h.node in t.nodes
             && var was := t.nodes[h.node];
             m == (if h.strong then was.(localStrong := was.localStrong - 1) else was.(localWeak := was.localWeak - 1)).(queued := m.queued)
    ensures Inv(GiveBack(t, k, m))
  {
    var holds, h := t.buffers[k].holds[1..], t.buffers[k].holds[0];
    assert CountedAt(t, h.node);
    HoldCountUpdate(t.buffers, k, Buffer(t.buffers[k].proc, holds), h.node, true);
    HoldCountUpdate(t.buffers, k, Buffer(t.buffers[k].proc, holds), h.node, false);
    FirstHold(t, k);
    forall i | 0 <= i < |holds| && holds[i].Local? && holds[i].node == h.node ensures holds[i].ptr == t.nodes[h.node].ptr {
      assert HoldAt(t, k, i + 1);
    }
    WithHoldsKeeps(t, k, holds, h.node, m);
  }

  /**
   Notice `news` is what the owner of a node has to be told next: to hold what is
   needed and not held, weakly first, and to give back what is held and not
   needed, strongly first.  What it is told to hold counts until it answers.
   */
  predicate Advises(m: Node, refs: bool, news: Notice, m': Node) {
    var strong := m.internalStrong != 0 || m.localStrong != 0;
    var weak := refs || m.localWeak != 0 || strong;
    match news
    case Increfs => weak && !m.hasWeak && m' == m.(hasWeak := true, pendingWeak := true, localWeak := m.localWeak + 1)
    case Acquire => strong && m.hasWeak && !m.hasStrong && m' == m.(hasStrong := true, pendingStrong := true, localStrong := m.localStrong + 1)
    case Release => !strong && m.hasStrong && m' == m.(hasStrong := false)
    case Decrefs => !weak && m.hasWeak && !m.hasStrong && m' == m.(hasWeak := false)
    case Presumed => false
  }

  /** Every notice is in order, and gives nothing back that the owner has not acknowledged. */
  lemma ReadTells(t: Table, n: NodeId)
    requires AllCounted(t) && n in t.nodes && t.nodes[n].proc.Some?
    ensures var was, r := t.nodes[n], ReadNode(t.nodes[n], HasRefs(t.refs, n));
            && (r.Told? ==>
                  && Obey(Holding(was.hasWeak, was.hasStrong), r.notice) == Some(Holding(r.node.hasWeak, r.node.hasStrong))
                  && r.notice != Presumed && (r.notice == Release ==> !was.pendingStrong) && (r.notice == Decrefs ==> !was.pendingWeak))
            && (r.Told? ==> Advises(was, HasRefs(t.refs, n), r.notice, r.node))
            && (!r.Gone? ==> CountedAt(WithNode(t, n, r.node), n))
            && (r.Gone? ==> !HasRefs(t.refs, n) && t.context != Some(n))
  {
    assert CountedAt(t, n);
    NoRefsNoStrong(t.refs, n);
    NoticeInOrder(t.nodes[n], HasRefs(t.refs, n), StrongRefs(t.refs, n), HoldCount(t.buffers, n, true),
                  HoldCount(t.buffers, n, false), t.context == Some(n));
  }

  /** What reading leaves as it is; a node that goes is held by nobody. */
  lemma ReadSpares(was: Node, refs: bool)
    ensures var r := ReadNode(was, refs);
            && (r.Settled? ==> r.node.hasWeak == was.hasWeak && r.node.hasStrong == was.hasStrong)
            && (!r.Gone? ==> r.node.proc == was.proc && r.node.ptr == was.ptr)
            && (r.Gone? ==> was.localStrong == 0 && was.localWeak == 0 && !was.hasWeak && !was.hasStrong)
  {
  }

  lemma ReadKeeps(t: Table, n: NodeId)
    requires Inv(t) && n in t.nodes && t.nodes[n].proc.Some?
    ensures var r := ReadNode(t.nodes[n], HasRefs(t.refs, n)); !r.Gone? ==> Inv(WithNode(t, n, r.node))
  {
    ReadTells(t, n);
    ReadSpares(t.nodes[n], HasRefs(t.refs, n));
    var r := ReadNode(t.nodes[n], HasRefs(t.refs, n));
    if !r.Gone? {
      WithNodeKeeps(t, n, r.node);
    }
  }

  /** A new weak reference takes no strong one away. */
  lemma StrongWithNewRef(refs: map<RefId, Ref>, refs': map<RefId, Ref>, r: RefId, n: NodeId)
    requires refs' == refs || (r !in refs && r in refs' && refs'[r].strong == 0 && refs' == refs[r := refs'[r]])
    ensures StrongRefs(refs', n) == StrongRefs(refs, n)
  {
    if refs' != refs {
      StrongChange(refs, r, refs'[r], n);
    }
  }

  /**
   Buffer `k` has received a handle to node `n`: the receiver has a reference to the
   node, and the buffer names its descriptor.  A strong handle is counted once more;
   so is a weak one, unless it is the first to a node whose owner neither holds it nor
   is about to be told, and there is no work list.  No other reference changes.
   */
  predicate SentHandle(t: Table, t': Table, k: nat, n: NodeId, strong: bool, list: bool, r: RefId)
    requires k < |t.buffers|
  {
    var q := t.buffers[k].proc;
    && (q, n) in t'.byNode && t'.byNode[(q, n)] in t'.refs
    && var ref := t'.byNode[(q, n)];
    && ref == (if (q, n) in t.byNode then t.byNode[(q, n)] else r)
    && t'.refs[ref].proc == q && t'.refs[ref].node == n
    && t'.buffers == t.buffers[k := Buffer(q, t.buffers[k].holds + [Handle(t'.refs[ref].desc, strong)])]
    && var was := if ref in t.refs then t.refs[ref] else Ref(q, n, t'.refs[ref].desc, 0, 0);
    && var counted := strong || list || was.weak > 0 || (n in t.nodes && (t.nodes[n].hasWeak || t.nodes[n].queued));
    && t'.refs == t.refs[ref := if counted then Stepped(was, strong, 1) else was]
  }

  /** `t1` has the receiver's reference `ref`, perhaps a new one, and `t2` the handle as well. */
  lemma HandleSent(t: Table, t1: Table, t2: Table, k: nat, n: NodeId, strong: bool, list: bool, r: RefId, ref: RefId)
    requires Inv(t1) && k < |t.buffers| && r !in t.refs && n in t1.nodes
    requires ref in t1.refs && t1.refs[ref].proc == t.buffers[k].proc && t1.refs[ref].node == n
    requires if (t.buffers[k].proc, n) in t.byNode then t1 == t && ref == t.byNode[(t.buffers[k].proc, n)]
             else ref == r && t1 == WithNewRef(t, r, t1.refs[r]) && t1.refs[r].strong == 0 && t1.refs[r].weak == 0
    requires strong && !list ==> StrongRefs(t1.refs, n) > 0
    requires t2.byNode == t1.byNode
    requires t2.refs == if Countable(t1, ref, strong, list) then t1.refs[ref := Stepped(t1.refs[ref], strong, 1)] else t1.refs
    requires t2.buffers == t.buffers[k := Buffer(t.buffers[k].proc, t.buffers[k].holds + [Handle(t1.refs[ref].desc, strong)])]
    ensures SentHandle(t, t2, k, n, strong, list, r)
  {
    assert RefAt(t1, ref);
  }

  /** Releasing one more node of the exiting process. */
  lemma ReleasedOne(t: Table, p: ProcId, done: set<NodeId>, n: NodeId)
    requires Owned(t) && n in t.nodes && t.nodes[n].proc == Some(p) && n !in done && done <= NodesOf(t, p)
    ensures var s := Releasing(t, p, done);
            && n in s.nodes && s.nodes[n] == t.nodes[n]
            && Releasing(t, p, done + {n}) ==
                 s.(byPtr := s.byPtr - {(p, t.nodes[n].ptr)},
                    nodes := if HasRefs(t.refs, n) then s.nodes[n := Orphaned(t.nodes[n])] else s.nodes - {n})
  {
    var s, s' := Releasing(t, p, done), Releasing(t, p, done + {n});
    assert OwnedAt(t, n);
    forall k | k in t.byPtr && t.byPtr[k] == n ensures k == (p, t.nodes[n].ptr) {
      assert PtrAt(t, k);
    }
    assert s'.byPtr == s.byPtr - {(p, t.nodes[n].ptr)};
  }

  function Acknowledged(m: Node, strong: bool, refs: bool): Option<Node> {
    DecNode(if strong then m.(pendingStrong := false) else m.(pendingWeak := false), strong, false, refs)
  }

  /** Nothing is pending any more, and the count that stood for it is gone. */
  predicate Settles(m: Node, m': Node, strong: bool, refs: bool) {
    Lessened(if strong then m.(pendingStrong := false) else m.(pendingWeak := false), m', strong, false, refs)
  }

  lemma AcknowledgeKeeps(t: Table, n: NodeId, strong: bool)
    requires Inv(t) && n in t.nodes && t.nodes[n].proc.Some?
    requires if strong then t.nodes[n].pendingStrong else t.nodes[n].pendingWeak
    ensures var dec := Acknowledged(t.nodes[n], strong, HasRefs(t.refs, n));
            && dec.Some? && Inv(WithNode(t, n, dec.value))
            && dec.value.hasWeak == t.nodes[n].hasWeak && dec.value.hasStrong == t.nodes[n].hasStrong
            && dec.value.proc == t.nodes[n].proc && dec.value.ptr == t.nodes[n].ptr
            && Settles(t.nodes[n], dec.value, strong, HasRefs(t.refs, n))
  {
    assert CountedAt(t, n);
    var dec := Acknowledged(t.nodes[n], strong, HasRefs(t.refs, n));
    DecLessens(if strong then t.nodes[n].(pendingStrong := false) else t.nodes[n].(pendingWeak := false), strong, false, HasRefs(t.refs, n));
    WithNodeKeeps(t, n, dec.value);
  }

  /** A node after one of its references is gone: first the strong count, then the weak one.  None: it is freed. */
  function Unreferenced(t: Table, r: RefId): Option<Node>
    requires r in t.refs && t.refs[r].node in t.nodes
  {
    var ref := t.refs[r];
    var dec := if ref.strong > 0 then DecNode(t.nodes[ref.node], true, true, true) else Some(t.nodes[ref.node]);
    if dec == None then None else DecNode(dec.value, false, true, HasRefs(t.refs - {r}, ref.node))
  }

  /** The counters of that node at its end, freed or not. */
  function AfterUnreference(t: Table, r: RefId): Node
    requires r in t.refs && t.refs[r].node in t.nodes
  {
    var ref := t.refs[r];
    var m := t.nodes[ref.node];
    if Unreferenced(t, r).Some? then Unreferenced(t, r).value
    else if ref.strong > 0 then m.(internalStrong := m.internalStrong - 1) else m
  }

  lemma UnreferenceLoosens(t: Table, r: RefId)
    requires r in t.refs && t.refs[r].node in t.nodes
    ensures Loosened(t.nodes[t.refs[r].node], AfterUnreference(t, r))
  {
  }

  lemma DeleteRefKeeps(t: Table, r: RefId)
    requires Inv(t) && r in t.refs
    ensures t.refs[r].node in t.nodes
    ensures Inv(WithoutRef(t, r, AfterUnreference(t, r)))
    ensures var n := t.refs[r].node;
            var m := AfterUnreference(t, r);
            && m.hasWeak == t.nodes[n].hasWeak && m.hasStrong == t.nodes[n].hasStrong && m.proc == t.nodes[n].proc && m.ptr == t.nodes[n].ptr
            && (Unreferenced(t, r) == None ==>
                  && !HasRefs(t.refs - {r}, n) && t.context != Some(n) && m.localStrong == 0 && m.localWeak == 0
                  && (m.proc.Some? ==> !m.hasWeak && !m.hasStrong))
  {
    var ref := t.refs[r];
    ReferencedNode(t, r);
    assert CountedAt(t, ref.node);
    StrongRemove(t.refs, r, ref.node);
    NoRefsNoStrong(t.refs - {r}, ref.node);
    WithoutRefKeeps(t, r, AfterUnreference(t, r));
  }

  /** A node's counters after a buffer has given it back, freed or not. */
  function GivenBack(m: Node, strong: bool, refs: bool): Node {
    var dec := DecNode(m, strong, false, refs);
    if dec.Some? then dec.value
    else if strong then m.(localStrong := m.localStrong - 1) else m.(localWeak := m.localWeak - 1)
  }

  lemma GivenBackKeeps(t: Table, k: nat)
    requires Inv(t) && k < |t.buffers| && |t.buffers[k].holds| > 0 && t.buffers[k].holds[0].Local?
    ensures var h := t.buffers[k].holds[0];
            && h.node in t.nodes
            && var m := GivenBack(t.nodes[h.node], h.strong, HasRefs(t.refs, h.node));
            && Inv(GiveBack(t, k, m))
            && m.hasWeak == t.nodes[h.node].hasWeak && m.hasStrong == t.nodes[h.node].hasStrong
            && (DecNode(t.nodes[h.node], h.strong, false, HasRefs(t.refs, h.node)) == None ==>
                  && !HasRefs(t.refs, h.node) && t.context != Some(h.node) && m.localStrong == 0 && m.localWeak == 0
                  && (m.proc.Some? ==> !m.hasWeak && !m.hasStrong))
  {
    var h := t.buffers[k].holds[0];
    FirstHold(t, k);
    assert CountedAt(t, h.node);
    NoRefsNoStrong(t.refs, h.node);
    FreedUnused(t.nodes[h.node], h.strong, false, HasRefs(t.refs, h.node), StrongRefs(t.refs, h.node),
                HoldCount(t.buffers, h.node, true), HoldCount(t.buffers, h.node, false), t.context == Some(h.node));
    GiveBackKeeps(t, k, GivenBack(t.nodes[h.node], h.strong, HasRefs(t.refs, h.node)));
  }

  /** Reference `r` is the one that process `p` calls `desc`. */
  predicate Called(refs: map<RefId, Ref>, p: ProcId, desc: nat, r: RefId) {
    r in refs && refs[r].proc == p && refs[r].desc == desc
  }

  /** The references of process `p` once one handle has been given back: one count less, and no reference without counts. */
  ghost function OneGivenUp(refs: map<RefId, Ref>, p: ProcId, h: Hold): map<RefId, Ref> {
    if h.Handle? && exists r :: Called(refs, p, h.desc, r) then
      var r :| Called(refs, p, h.desc, r);
      var ref := refs[r];
      if (if h.strong then ref.strong else ref.weak) == 0 then refs
      else
        var ref' := Stepped(ref, h.strong, -1);
        if ref'.strong == 0 && ref'.weak == 0 then refs - {r} else refs[r := ref']
    else refs
  }

  ghost function GivenUp(refs: map<RefId, Ref>, p: ProcId, holds: seq<Hold>): map<RefId, Ref> {
    if holds == [] then refs else GivenUp(OneGivenUp(refs, p, holds[0]), p, holds[1..])
  }

  /** The index by descriptor finds the one reference with that descriptor, if there is one. */
  lemma DescUnique(t: Table, p: ProcId, desc: nat)
    requires Inv(t)
    ensures forall r :: Called(t.refs, p, desc, r) <==> (p, desc) in t.byDesc && t.byDesc[(p, desc)] == r
  {
    forall r | Called(t.refs, p, desc, r)
      ensures (p, desc) in t.byDesc && t.byDesc[(p, desc)] == r
    {
      assert RefAt(t, r);
    }
    if (p, desc) in t.byDesc {
      assert DescAt(t, (p, desc));
    }
  }

  class Nodes {
    var table: Table
    /** The user that may be context manager, once there has been one. */
    var manager: Option<nat>
    ghost var told: map<Object, seq<Notice>>

    ghost predicate Valid()
      reads this
    {
      Inv(table) && Logged(table, told)
    }

    constructor ()
      ensures Valid() && table == Table(map[], map[], map[], map[], map[], None, []) && manager == None && told == map[]
    {
      table := Table(map[], map[], map[], map[], map[], None, []);
      manager, told := None, map[];
      new;
      assert forall k: Object :: LogAt(table, told, k);
    }

    /** binder_get_ref_for_node: `r` is the new reference's address, unless there is no memory. */
    method GetRefForNode(p: ProcId, n: NodeId, r: RefId, memory: bool) returns (result: Option<RefId>)
      requires Valid() && n in table.nodes && r !in table.refs
      modifies this`table
      ensures Valid()
      ensures (p, n) in old(table.byNode) ==> result == Some(old(table.byNode[(p, n)])) && table == old(table)
      ensures (p, n) !in old(table.byNode) && !memory ==> result == None && table == old(table)
      ensures (p, n) !in old(table.byNode) && memory ==>
                && result == Some(r) && r in table.refs
                && table == WithNewRef(old(table), r, table.refs[r])
                && var ref := table.refs[r];
                && ref == Ref(p, n, ref.desc, 0, 0) && (p, ref.desc) !in old(table.byDesc)
                && ref.desc >= (if old(table.context) == Some(n) then 0 else 1)
                && (forall d :: (if old(table.context) == Some(n) then 0 else 1) <= d < ref.desc ==> (p, d) in old(table.byDesc))
      ensures result.Some? ==>
                && result.value in table.refs && table.refs[result.value].proc == p && table.refs[result.value].node == n
    {
      if (p, n) in table.byNode {
        assert NodeKeyAt(table, (p, n));
        return Some(table.byNode[(p, n)]);
      }
      if !memory {
        return None;
      }
      var used := set k | k in table.byDesc && k.0 == p :: k.1;
      var desc := PickDesc(used, if table.context == Some(n) then 0 else 1);
      assert (p, desc) !in table.byDesc by {
        assert (p, desc) in table.byDesc ==> (p, desc).1 in used;
      }
      assert forall d :: d in used ==> (p, d) in table.byDesc;
      var ref := Ref(p, n, desc, 0, 0);
      WithNewRefKeeps(table, r, ref);
      LogKept(table, WithNewRef(table, r, ref), told);
      table := WithNewRef(table, r, ref);
      return Some(r);
    }

    /** binder_inc_ref */
    method IncRef(r: RefId, strong: bool, list: bool) returns (ok: bool)
      requires Valid() && r in table.refs
      modifies this`table
      ensures Valid()
      ensures Shrinks(old(table), table)
      ensures !ok ==> table.refs == old(table.refs)
      ensures ok ==> table.refs == old(table.refs)[r := Stepped(old(table.refs[r]), strong, 1)]
      ensures table.buffers == old(table.buffers) && table.byPtr == old(table.byPtr) && table.context == old(table.context)
      ensures table.byDesc == old(table.byDesc) && table.byNode == old(table.byNode)
      ensures ok <==> old(Countable(table, r, strong, list))
      ensures table.nodes.Keys == old(table.nodes.Keys) && Steady(old(table), table) && Alerted(old(table), table)
      ensures Recounted(old(table), table, r, strong, list, ok)
    {
      IncRefKeeps(table, r, strong, list);
      IncRecounts(table, r, strong, list);
      IncAlerts(table, r, strong, list);
      IncSteady(table, r, strong, list);
      var inc := IncRefNode(table, r, strong, list);
      LogKept(table, IncRefTable(table, r, strong, list), told);
      assert table.refs[r := table.refs[r]] == table.refs;
      table := IncRefTable(table, r, strong, list);
      return inc.ok;
    }

    /** binder_delete_ref */
    method DeleteRef(r: RefId)
      requires Valid() && r in table.refs
      modifies this`table
      ensures Valid()
      ensures Shrinks(old(table), table)
      ensures table.refs == old(table.refs) - {r}
      ensures table.buffers == old(table.buffers) && table.context == old(table.context)
      ensures forall x :: x in table.nodes ==> x in old(table.nodes) && table.nodes[x].proc == old(table.nodes[x].proc)
      ensures LosesRef(old(table), table, r) && Unlinked(old(table), table, r) && Alerted(old(table), table)
    {
      DeleteRefKeeps(table, r);
      UnreferenceLoosens(table, r);
      UnreferenceAlerts(table, r);
      UnreferenceUnlinks(table, r);
      var n := table.refs[r].node;
      var freed := Unreferenced(table, r) == None;
      Unreference(r, AfterUnreference(table, r));
      label unreferenced:
      if freed {
        FreeNode(n);
        ShrinksOn(old(table), old@unreferenced(table), table);
      }
    }

    /** The reference goes, and its node becomes `m`. */
    method Unreference(r: RefId, m: Node)
      requires Valid() && r in table.refs && table.refs[r].node in table.nodes && Inv(WithoutRef(table, r, m))
      requires var was := table.nodes[table.refs[r].node];
               m.proc == was.proc && m.ptr == was.ptr && m.hasWeak == was.hasWeak && m.hasStrong == was.hasStrong
      modifies this`table
      ensures Valid() && table == WithoutRef(old(table), r, m) && Shrinks(old(table), table)
    {
      LogKept(table, WithoutRef(table, r, m), told);
      table := WithoutRef(table, r, m);
    }

    /** kfree of a node that nothing refers to any more. */
    method FreeNode(n: NodeId)
      requires Valid() && n in table.nodes && !HasRefs(table.refs, n) && table.context != Some(n)
      requires table.nodes[n].localStrong == 0 && table.nodes[n].localWeak == 0
      requires table.nodes[n].proc.Some? ==> !table.nodes[n].hasWeak && !table.nodes[n].hasStrong
      modifies this`table
      ensures Valid() && table == WithoutNode(old(table), n) && Shrinks(old(table), table)
    {
      assert CountedAt(table, n);
      WithoutNodeKeeps(table, n);
      LogFreed(table, told, n);
      table := WithoutNode(table, n);
    }

    /** binder_dec_ref */
    method DecRef(r: RefId, strong: bool) returns (ok: bool)
      requires Valid() && r in table.refs
      modifies this`table
      ensures Valid()
      ensures Shrinks(old(table), table)
      ensures ok <==> (if strong then old(table.refs[r].strong) else old(table.refs[r].weak)) > 0
      ensures !ok ==> table == old(table)
      ensures ok ==>
                var ref' := Stepped(old(table.refs[r]), strong, -1);
                table.refs == if ref'.strong == 0 && ref'.weak == 0 then old(table.refs) - {r} else old(table.refs)[r := ref']
      ensures table.buffers == old(table.buffers) && table.context == old(table.context) && Steady(old(table), table)
      ensures Alerted(old(table), table)
    {
      var ref := table.refs[r];
      if (strong && ref.strong == 0) || (!strong && ref.weak == 0) {
        return false;
      }
      var ref' := Stepped(ref, strong, -1);
      Discount(r, strong);
      label counted:
      if ref'.strong == 0 && ref'.weak == 0 {
        DeleteRef(r);
        assert old(table.refs)[r := ref'] - {r} == old(table.refs) - {r};
        ShrinksOn(old(table), old@counted(table), table);
        LosesSteady(old@counted(table), table, r);
        SteadyOn(old(table), old@counted(table), table);
        AlertedOn(old(table), old@counted(table), table);
      }
      return true;
    }

    /** One count less, with the reference still there. */
    method Discount(r: RefId, strong: bool)
      requires Valid() && r in table.refs && (if strong then table.refs[r].strong else table.refs[r].weak) > 0
      modifies this`table
      ensures Valid() && Shrinks(old(table), table)
      ensures table.refs == old(table.refs)[r := Stepped(old(table.refs[r]), strong, -1)]
      ensures Discounted(old(table), table, r, strong)
      ensures table.buffers == old(table.buffers) && table.context == old(table.context) && Steady(old(table), table)
      ensures Alerted(old(table), table)
    {
      DecRefKeeps(table, r, strong);
      DecSteady(table, r, strong);
      DecDiscounts(table, r, strong);
      DecAlerts(table, r, strong);
      LogKept(table, DecRefTable(table, r, strong), told);
      table := DecRefTable(table, r, strong);
    }

    /** Process `p` has the handle `desc`, as strongly as it is used. */
    ghost predicate HasHandle(p: ProcId, desc: nat, strong: bool)
      reads this
    {
      (p, desc) in table.byDesc && table.byDesc[(p, desc)] in table.refs && (strong ==> table.refs[table.byDesc[(p, desc)]].strong > 0)
    }

    /** BC_INCREFS, BC_ACQUIRE, BC_RELEASE and BC_DECREFS on descriptor `desc` of process `p`. */
    method RefCommand(p: ProcId, desc: nat, strong: bool, up: bool, r: RefId) returns (ok: bool)
      requires Valid() && r !in table.refs
      modifies this`table
      ensures Valid() && Shrinks(old(table), table) && Steady(old(table), table) && Alerted(old(table), table)
      ensures table.buffers == old(table.buffers) && table.context == old(table.context)
      ensures !(desc == 0 && old(table.context).Some? && up) ==>
                && (ok ==> old(HasHandle(p, desc, strong)))
                && (old(HasHandle(p, desc, strong)) ==>
                      var q := old(table.byDesc[(p, desc)]);
                      var ref := old(table.refs[q]);
                      && (strong ==> ok) && (!up ==> (ok <==> (if strong then ref.strong else ref.weak) > 0))
                      && (up ==> (ok <==> Countable(old(table), q, strong, false)))
                      && (ok && up ==> table.refs == old(table.refs)[q := Stepped(ref, strong, 1)])
                      && (ok && !up ==> table.refs == if ref.strong + ref.weak == 1 then old(table.refs) - {q}
                                                      else old(table.refs)[q := Stepped(ref, strong, -1)]))
                && (!ok ==> table.refs == old(table.refs))
      // An increment on descriptor 0 goes to the context manager's node, and makes the reference if there is none.
      ensures desc == 0 && old(table.context).Some? && up ==>
                var n := old(table.context).value;
                var q := if (p, n) in old(table.byNode) then old(table.byNode[(p, n)]) else r;
                && q in table.refs && table.refs[q].proc == p && table.refs[q].node == n
                && table.refs - {q} == old(table.refs) - {q}
                && ok
                && var was := if q in old(table.refs) then old(table.refs[q]) else Ref(p, n, table.refs[q].desc, 0, 0);
                   table.refs[q] == Stepped(was, strong, 1)
    {
      if desc == 0 && table.context.Some? && up {
        ok := CountManager(p, strong, r);
        return;
      }
      if (p, desc) !in table.byDesc {
        return false;
      }
      var target := table.byDesc[(p, desc)];
      assert DescAt(table, (p, desc));
      if strong && table.refs[target].strong == 0 {
        return false;
      }
      NoRefsNoStrong(table.refs, table.refs[target].node);
      if up {
        ok := IncRef(target, strong, false);
      } else {
        ok := DecRef(target, strong);
      }
    }

    /** An increment on descriptor 0, with `r` for the reference if there is none yet. */
    method CountManager(p: ProcId, strong: bool, r: RefId) returns (ok: bool)
      requires Valid() && r !in table.refs && table.context.Some? && table.context.value in table.nodes
      modifies this`table
      ensures Valid() && Shrinks(old(table), table) && Steady(old(table), table) && Alerted(old(table), table)
      ensures table.buffers == old(table.buffers) && table.context == old(table.context)
      ensures var n := table.context.value;
              var q := if (p, n) in old(table.byNode) then old(table.byNode[(p, n)]) else r;
              && q in table.refs && table.refs[q].proc == p && table.refs[q].node == n
              && table.refs - {q} == old(table.refs) - {q}
              && ok
              && var was := if q in old(table.refs) then old(table.refs[q]) else Ref(p, n, table.refs[q].desc, 0, 0);
                 table.refs[q] == Stepped(was, strong, 1)
    {
      var q := ManagerRef(p, r);
      ghost var found := table;
      ManagerCountable(table, q, strong);
      ok := IncRef(q, strong, false);
      GivenAlerts(old(table), found, table, r, q, strong, false, ok);
      ReplacedAt(found.refs, q, table.refs[q]);
      assert table.refs - {q} == found.refs - {q};
    }

    /** The reference of process `p` to the context manager's node, which is `r` if there was none. */
    method ManagerRef(p: ProcId, r: RefId) returns (q: RefId)
      requires Valid() && r !in table.refs && table.context.Some? && table.context.value in table.nodes
      modifies this`table
      ensures Valid() && table.nodes == old(table.nodes) && table.byPtr == old(table.byPtr)
      ensures table.buffers == old(table.buffers) && table.context == old(table.context)
      ensures table == old(table) ||
                (q == r && r in table.refs && table == WithNewRef(old(table), r, table.refs[r]) && table.refs[r].strong == 0 && table.refs[r].weak == 0)
      ensures var n := table.context.value;
              && q == (if (p, n) in old(table.byNode) then old(table.byNode[(p, n)]) else r)
              && q in table.refs && table.refs[q].proc == p && table.refs[q].node == n
              && table.refs - {q} == old(table.refs) - {q}
              && table.refs[q] == if q in old(table.refs) then old(table.refs[q]) else Ref(p, n, table.refs[q].desc, 0, 0)
    {
      var ref := GetRefForNode(p, table.context.value, r, true);
      q := ref.value;
    }

    /** BC_ACQUIRE_DONE and BC_INCREFS_DONE: the owner acknowledges a notice. */
    method Acknowledge(p: ProcId, ptr: nat, cookie: nat, strong: bool) returns (ok: bool)
      requires Valid()
      modifies this`table
      ensures Valid()
      ensures Shrinks(old(table), table)
      ensures ok <==> (p, ptr) in old(table.byPtr) && old(table.byPtr[(p, ptr)]) in old(table.nodes)
                      && cookie == old(table.nodes[table.byPtr[(p, ptr)]].cookie)
                      && (if strong then old(table.nodes[table.byPtr[(p, ptr)]].pendingStrong)
                          else old(table.nodes[table.byPtr[(p, ptr)]].pendingWeak))
      ensures !ok ==> table == old(table)
      ensures ok ==>
                var n := old(table.byPtr[(p, ptr)]);
                var m := old(table.nodes[n]);
                && n in table.nodes && table.nodes == old(table.nodes)[n := table.nodes[n]]
                && Settles(m, table.nodes[n], strong, HasRefs(table.refs, n))
      ensures table.refs == old(table.refs) && table.buffers == old(table.buffers) && Alerted(old(table), table)
    {
      if (p, ptr) !in table.byPtr {
        return false;
      }
      var n := table.byPtr[(p, ptr)];
      assert PtrAt(table, (p, ptr));
      var m := table.nodes[n];
      if cookie != m.cookie {
        return false;
      }
      if !(if strong then m.pendingStrong else m.pendingWeak) {
        return false;
      }
      Answered(n, strong);
      return true;
    }

    /** The owner of node `n` has answered a notice that was pending. */
    method Answered(n: NodeId, strong: bool)
      requires Valid() && n in table.nodes && table.nodes[n].proc.Some?
      requires if strong then table.nodes[n].pendingStrong else table.nodes[n].pendingWeak
      modifies this`table
      ensures Valid() && n in table.nodes && table == WithNode(old(table), n, table.nodes[n])
      ensures Settles(old(table.nodes[n]), table.nodes[n], strong, HasRefs(table.refs, n))
      ensures Shrinks(old(table), table) && Alerted(old(table), table)
    {
      AcknowledgeKeeps(table, n, strong);
      AcknowledgeAlerts(table, n, strong);
      var dec := Acknowledged(table.nodes[n], strong, HasRefs(table.refs, n));
      // the owner still has the node, so it is queued for RELEASE or DECREFS rather than freed
      assert dec.Some?;
      Settle(n, dec.value);
    }

    /** BINDER_WORK_NODE: telling the owner what its node needs, or ending the work entry. */
    method ReadWork(n: NodeId) returns (notice: Option<Notice>)
      requires Valid() && n in table.nodes && table.nodes[n].proc.Some? && table.nodes[n].queued
      modifies this
      ensures Valid()
      ensures notice.Some? ==>
                && n in table.nodes
                && var k := (old(table.nodes[n]).proc.value, old(table.nodes[n]).ptr);
                   told == old(told)[k := LogOf(old(told), k) + [notice.value]]
      ensures notice.None? ==> told == old(told)
      ensures Shrinks(old(table), table)
      ensures notice.None? <==> UpToDate(old(table.nodes[n]), HasRefs(old(table.refs), n))
      ensures notice.None? && n in table.nodes ==> !table.nodes[n].queued
      ensures notice.Some? ==> Advises(old(table.nodes[n]), HasRefs(old(table.refs), n), notice.value, table.nodes[n])
      ensures OnlyNode(old(table), table, n) && Alerted(old(table), table)
      ensures notice != Some(Presumed) && (notice == Some(Release) ==> !old(table.nodes[n].pendingStrong))
      ensures notice == Some(Decrefs) ==> !old(table.nodes[n].pendingWeak)
      ensures n !in table.nodes ==> !HasRefs(table.refs, n) && table.context != Some(n)
      ensures table.refs == old(table.refs) && table.buffers == old(table.buffers) && table.context == old(table.context)
    {
      ReadTells(table, n);
      ReadSpares(table.nodes[n], HasRefs(table.refs, n));
      ReadKeeps(table, n);
      OnlyNodeChanges(table, n);
      ReadAlerts(table, n);
      FreedAlerts(table, n);
      match ReadNode(table.nodes[n], HasRefs(table.refs, n))
      case Told(news, m) =>
        Tell(n, m, news);
        notice := Some(news);
      case Settled(m) =>
        Settle(n, m);
        notice := None;
      case Gone =>
        FreeNode(n);
        notice := None;
    }

    /** Node `n` becomes `m`, of which its owner holds as much as before. */
    method Settle(n: NodeId, m: Node)
      requires Valid() && n in table.nodes && Inv(WithNode(table, n, m))
      requires m.proc == table.nodes[n].proc && m.ptr == table.nodes[n].ptr
      requires m.hasWeak == table.nodes[n].hasWeak && m.hasStrong == table.nodes[n].hasStrong
      modifies this`table
      ensures Valid() && table == WithNode(old(table), n, m) && Shrinks(old(table), table)
    {
      LogKept(table, WithNode(table, n, m), told);
      table := WithNode(table, n, m);
    }

    /** The owner is told `news`, after which its node is `m`. */
    method Tell(n: NodeId, m: Node, news: Notice)
      requires Valid() && n in table.nodes && table.nodes[n].proc.Some? && Inv(WithNode(table, n, m))
      requires m.proc == table.nodes[n].proc && m.ptr == table.nodes[n].ptr
      requires Obey(Holding(table.nodes[n].hasWeak, table.nodes[n].hasStrong), news) == Some(Holding(m.hasWeak, m.hasStrong))
      modifies this
      ensures Valid() && table == WithNode(old(table), n, m) && Shrinks(old(table), table)
      ensures var k := (old(table.nodes[n]).proc.value, old(table.nodes[n]).ptr); told == old(told)[k := LogOf(old(told), k) + [news]]
    {
      Noted(table, told, n, m, news);
      ghost var k := (table.nodes[n].proc.value, table.nodes[n].ptr);
      told := told[k := LogOf(told, k) + [news]];
      table := WithNode(table, n, m);
    }

    /** BINDER_SET_CONTEXT_MGR: a new node that counts as already acquired by its owner. */
    method SetContextManager(p: ProcId, n: NodeId, denied: bool, uid: nat, memory: bool) returns (ok: bool)
      requires Valid() && n !in table.nodes
      modifies this
      ensures Valid() && manager == (if old(table.context).None? && !denied && old(manager).None? then Some(uid) else old(manager))
      ensures ok <==> old(table.context) == None && !denied && (old(manager).Some? ==> old(manager) == Some(uid)) && memory && (p, 0) !in old(table.byPtr)
      ensures ok ==> n in table.nodes && table == WithNewNode(old(table), n, table.nodes[n], p).(context := Some(n))
      ensures ok ==> table.nodes[n] == Node(Some(p), 0, 0, 0, 1, 1, true, false, true, false, false)
      ensures !ok ==> table == old(table) && told == old(told)
      ensures ok ==> told == old(told)[(p, 0) := LogOf(old(told), (p, 0)) + [Presumed]]
      ensures Alerted(old(table), table)
    {
      if table.context.Some? || denied {
        return false;
      }
      if manager.Some? && manager != Some(uid) {
        return false;
      }
      manager := Some(uid);
      if !memory || (p, 0) in table.byPtr {
        return false;
      }
      var m := Node(Some(p), 0, 0, 0, 1, 1, true, false, true, false, false);
      ContextKeeps(table, n, m, p);
      NoObject(table, n);
      LogContext(table, told, n, m, p);
      NewAlerts(table, n, m, p);
      SameAlerts(WithNewNode(table, n, m, p), WithNewNode(table, n, m, p).(context := Some(n)));
      AlertedOn(table, WithNewNode(table, n, m, p), WithNewNode(table, n, m, p).(context := Some(n)));
      table := WithNewNode(table, n, m, p).(context := Some(n));
      told := told[(p, 0) := LogOf(told, (p, 0)) + [Presumed]];
      return true;
    }

    static lemma ReferencedKnown(t: Table)
      requires Indexed(t)
      ensures forall k :: k in t.byNode ==> k.1 in t.nodes
    {
      forall k | k in t.byNode
        ensures k.1 in t.nodes
      {
        assert NodeKeyAt(t, k);
        assert RefAt(t, t.byNode[k]);
      }
    }

    static lemma NeverReferenced(t: Table, n: NodeId)
      requires Indexed(t) && n !in t.nodes
      ensures forall q, strong :: Uncounted(t.refs, q, n, strong)
    {
      assert forall r :: r in t.refs ==> RefAt(t, r);
    }

    static lemma NoObject(t: Table, n: NodeId)
      requires Owned(t) && n !in t.nodes
      ensures forall k :: k in t.byPtr ==> t.byPtr[k] != n
    {
      forall k | k in t.byPtr
        ensures t.byPtr[k] != n
      {
        assert PtrAt(t, k);
      }
    }

    /** The exit of a thread drops the work entry of a node from its queue. */
    method DropWork(n: NodeId)
      requires Valid() && n in table.nodes
      modifies this`table
      ensures Valid() && table == WithNode(old(table), n, old(table.nodes[n]).(queued := false))
    {
      var m := table.nodes[n].(queued := false);
      assert CountedAt(table, n);
      WithNodeKeeps(table, n, m);
      Settle(n, m);
    }

    /** A transaction buffer for process `p` comes into being. */
    method NewBuffer(p: ProcId)
      requires Valid()
      modifies this`table
      ensures Valid() && table == old(table).(buffers := old(table.buffers) + [Buffer(p, [])])
    {
      NewBufferKeeps(table, p);
      LogKept(table, table.(buffers := table.buffers + [Buffer(p, [])]), told);
      table := table.(buffers := table.buffers + [Buffer(p, [])]);
    }

    /** Buffer `k` takes hold of a node of its own process, as its target or as an object in it. */
    method HoldNode(k: nat, n: NodeId, strong: bool)
      requires Valid() && k < |table.buffers| && n in table.nodes && table.nodes[n].proc == Some(table.buffers[k].proc)
      modifies this`table
      ensures Valid() && table == TakeHold(old(table), k, n, strong)
      ensures var m := old(table.nodes[n]);
              table.nodes == old(table.nodes)[n := if strong then m.(localStrong := m.localStrong + 1) else m.(localWeak := m.localWeak + 1)]
    {
      TakeHoldKeeps(table, k, n, strong);
      LogKept(table, TakeHold(table, k, n, strong), told);
      table := TakeHold(table, k, n, strong);
    }

    /**
     Buffer `k` is for a call of process `p` to its handle `desc`, or to the context
     manager under 0, and takes hold of the node it is for.
     */
    method HoldTarget(k: nat, p: ProcId, desc: nat) returns (target: Option<NodeId>)
      requires Valid() && k < |table.buffers|
      modifies this`table
      ensures Valid() && Alerted(old(table), table) && Steady(old(table), table)
      ensures target.Some? <==>
                if desc == 0 then old(table.context).Some? && old(Owns(k, table.context.value))
                else old(HasHandle(p, desc, true)) && old(Owns(k, table.refs[table.byDesc[(p, desc)]].node))
      ensures target.Some? ==>
                && target.value in old(table.nodes) && table == TakeHold(old(table), k, target.value, true)
                && (if desc == 0 then target == old(table.context) else target.value == old(table.refs[table.byDesc[(p, desc)]].node))
      ensures target.None? ==> table == old(table)
    {
      target := None;
      if desc != 0 {
        if (p, desc) in table.byDesc {
          var r := table.byDesc[(p, desc)];
          assert DescAt(table, (p, desc)) && RefAt(table, r);
          NoRefsNoStrong(table.refs, table.refs[r].node);
          if table.refs[r].strong > 0 {
            target := Some(table.refs[r].node);
          }
        }
      } else {
        target := table.context;
      }
      if target.Some? && table.nodes[target.value].proc == Some(table.buffers[k].proc) {
        HoldSteady(table, k, target.value, true);
        HoldAlerts(table, k, target.value, true);
        HoldNode(k, target.value, true);
      } else {
        target := None;
      }
    }

    /** Node `n` belongs to the process that buffer `k` is for. */
    ghost predicate Owns(k: nat, n: NodeId)
      requires k < |table.buffers|
      reads this
    {
      n in table.nodes && table.nodes[n].proc == Some(table.buffers[k].proc)
    }

    /** Buffer `k` records a handle that was put into it. */
    method HoldHandle(k: nat, desc: nat, strong: bool)
      requires Valid() && k < |table.buffers|
      modifies this`table
      ensures Valid() && table == WithBuffer(old(table), k, old(table.buffers[k].holds) + [Handle(desc, strong)])
    {
      HoldsAppend(table.buffers[k].holds, Handle(desc, strong));
      WithBufferKeeps(table, k, table.buffers[k].holds + [Handle(desc, strong)]);
      LogKept(table, WithBuffer(table, k, table.buffers[k].holds + [Handle(desc, strong)]), told);
      table := WithBuffer(table, k, table.buffers[k].holds + [Handle(desc, strong)]);
    }

    /** Buffer `k` gets a handle to node `n`; a strong one must not be the node's first without a work list. */
    method SendHandle(k: nat, n: NodeId, strong: bool, r: RefId, memory: bool, list: bool) returns (ok: bool)
      requires Valid() && k < |table.buffers| && n in table.nodes && r !in table.refs
      requires strong && !list ==> StrongRefs(table.refs, n) > 0
      modifies this`table
      ensures Valid() && table.byPtr == old(table.byPtr) && table.nodes.Keys == old(table.nodes.Keys) && Steady(old(table), table)
      ensures ok <==> memory || (old(table.buffers[k].proc), n) in old(table.byNode)
      ensures !ok ==> table == old(table)
      ensures ok ==> SentHandle(old(table), table, k, n, strong, list, r)
      ensures list || HasRefs(old(table.refs), n) ==> Alerted(old(table), table)
      // A first count taken with a work list is announced, unless the owner holds the node so already.
      ensures ok && list && Uncounted(old(table.refs), old(table.buffers[k].proc), n, strong)
              && !(if strong then old(table.nodes[n].hasStrong) else old(table.nodes[n].hasWeak)) ==>
                table.nodes[n].queued
    {
      var ref := GetRefForNode(table.buffers[k].proc, n, r, memory);
      if ref == None {
        return false;
      }
      StrongWithNewRef(old(table.refs), table.refs, r, n);
      ghost var found := table;
      GiveHandle(k, ref.value, strong, list);
      if list || HasRefs(old(table.refs), n) {
        GivenAlerts(old(table), found, table, r, ref.value, strong, list, Countable(found, ref.value, strong, list));
      }
      HandleSent(old(table), found, table, k, n, strong, list, r, ref.value);
      return true;
    }

    /** Buffer `k` records the handle of reference `r`, and takes a count for it. */
    method GiveHandle(k: nat, r: RefId, strong: bool, list: bool)
      requires Valid() && k < |table.buffers| && r in table.refs
      requires strong && !list ==> StrongRefs(table.refs, table.refs[r].node) > 0
      modifies this`table
      ensures Valid() && table.byPtr == old(table.byPtr) && table.nodes.Keys == old(table.nodes.Keys) && Steady(old(table), table)
      ensures table.byNode == old(table.byNode) && r in table.refs
      ensures Recounted(old(table), table, r, strong, list, Countable(old(table), r, strong, list))
      ensures table.refs == if Countable(old(table), r, strong, list) then old(table.refs)[r := Stepped(old(table.refs[r]), strong, 1)]
                            else old(table.refs)
      ensures table.buffers == old(table.buffers)[k := Buffer(old(table.buffers[k].proc), old(table.buffers[k].holds) + [Handle(old(table.refs[r].desc), strong)])]
    {
      HoldHandle(k, table.refs[r].desc, strong);
      ghost var held := table;
      var taken := IncRef(r, strong, list);
      SteadyOn(old(table), held, table);
      // a strong handle can always be passed on
      assert strong ==> taken;
    }

    /** The object that `p` knows as `ptr` was handed out with this cookie. */
    ghost predicate CookieAt(p: ProcId, ptr: nat, cookie: nat)
      requires (p, ptr) in table.byPtr
      reads this
    {
      table.byPtr[(p, ptr)] in table.nodes && table.nodes[table.byPtr[(p, ptr)]].cookie == cookie
    }

    /**
     binder_translate_binder: process `p` sends its object `ptr` in buffer `k`.  `n`
     and `r` are the addresses a new node and reference would get.
     */
    method TranslateBinder(k: nat, p: ProcId, ptr: nat, cookie: nat, strong: bool, n: NodeId, r: RefId,
                           nodeMemory: bool, refMemory: bool, denied: bool) returns (ok: bool)
      requires Valid() && k < |table.buffers| && n !in table.nodes && r !in table.refs
      modifies this`table
      ensures Valid() && |table.buffers| == |old(table.buffers)| && old(table.nodes.Keys) <= table.nodes.Keys && Steady(old(table), table)
      ensures Alerted(old(table), table)
      // A node comes into being even for an object that is then refused.
      ensures (p, ptr) in table.byPtr <==> (p, ptr) in old(table.byPtr) || nodeMemory
      ensures (p, ptr) in old(table.byPtr) ==> table.byPtr[(p, ptr)] == old(table.byPtr[(p, ptr)])
      ensures ok <==> && (if (p, ptr) in old(table.byPtr) then old(CookieAt(p, ptr, cookie)) else nodeMemory) && !denied
                      && (refMemory || (&& (p, ptr) in old(table.byPtr)
                                        && (old(table.buffers[k].proc), old(table.byPtr[(p, ptr)])) in old(table.byNode)))
      ensures !ok ==> table.buffers == old(table.buffers) && table.refs == old(table.refs)
      ensures !ok && (p, ptr) in old(table.byPtr) ==> table == old(table)
      ensures ok ==> SentHandle(old(table), table, k, table.byPtr[(p, ptr)], strong, true, r)
      // Its owner will read of the receiver's first count, unless it holds the object so already.
      ensures ok && (p, ptr) !in old(table.byPtr) ==> n in table.nodes && table.byPtr[(p, ptr)] == n && table.nodes[n].queued
      ensures ok && (p, ptr) in old(table.byPtr) ==>
                var x := old(table.byPtr[(p, ptr)]);
                && x in table.nodes && x in old(table.nodes)
                && (!(if strong then old(table.nodes)[x].hasStrong else old(table.nodes)[x].hasWeak) ==>
                      Uncounted(old(table.refs), old(table.buffers[k].proc), x, strong) ==> table.nodes[x].queued)
    {
      var node := n;
      if (p, ptr) in table.byPtr {
        node := table.byPtr[(p, ptr)];
        assert PtrAt(table, (p, ptr));
      } else {
        if !nodeMemory {
          return false;
        }
        ReferencedKnown(table);
        NeverReferenced(table, n);
        NewNode(p, ptr, cookie, n);
      }
      if cookie != table.nodes[node].cookie {
        return false;
      }
      if denied {
        return false;
      }
      ghost var known := table;
      ok := SendHandle(k, node, strong, r, refMemory, true);
      SteadyOn(old(table), known, table);
      AlertedOn(old(table), known, table);
    }

    method NewNode(p: ProcId, ptr: nat, cookie: nat, n: NodeId)
      requires Valid() && n !in table.nodes && (p, ptr) !in table.byPtr
      modifies this`table
      ensures Valid() && n in table.nodes && table == WithNewNode(old(table), n, table.nodes[n], p)
      ensures table.nodes[n] == Node(Some(p), ptr, cookie, 0, 0, 0, false, false, false, false, false)
      ensures Alerted(old(table), table)
    {
      var m := Node(Some(p), ptr, cookie, 0, 0, 0, false, false, false, false, false);
      WithNewNodeKeeps(table, n, m, p);
      NoObject(table, n);
      LogNew(table, told, n, m, p);
      NewAlerts(table, n, m, p);
      table := WithNewNode(table, n, m, p);
    }

    /**
     Process `p` may send its handle `desc` in buffer `k`: it has the handle, as
     strongly as it sends it, and for anybody but the node's owner there is a
     reference already or memory for one.
     */
    ghost predicate Sendable(k: nat, p: ProcId, desc: nat, strong: bool, memory: bool)
      requires k < |table.buffers|
      reads this
    {
      && (p, desc) in table.byDesc && table.byDesc[(p, desc)] in table.refs
      && var ref := table.refs[table.byDesc[(p, desc)]];
      && (strong ==> ref.strong > 0)
      && (|| memory || (table.buffers[k].proc, ref.node) in table.byNode
          || (ref.node in table.nodes && table.nodes[ref.node].proc == Some(table.buffers[k].proc)))
    }

    /**
     binder_translate_handle: process `p` sends its handle `desc` in buffer `k`.  To
     the node's owner it becomes the node, to anybody else a handle.
     */
    method TranslateHandle(k: nat, p: ProcId, desc: nat, strong: bool, r: RefId, memory: bool, denied: bool) returns (ok: bool)
      requires Valid() && k < |table.buffers| && r !in table.refs
      modifies this`table
      ensures Valid() && |table.buffers| == |old(table.buffers)| && table.nodes.Keys == old(table.nodes.Keys) && Steady(old(table), table)
      ensures Alerted(old(table), table)
      ensures ok <==> old(Sendable(k, p, desc, strong, memory)) && !denied
      ensures !ok ==> table == old(table)
      ensures ok ==>
                && (p, desc) in old(table.byDesc) && old(table.byDesc[(p, desc)]) in old(table.refs)
                && var n := old(table.refs[table.byDesc[(p, desc)]].node);
                && n in old(table.nodes)
                && (if old(table.nodes)[n].proc == Some(old(table.buffers[k].proc)) then table == TakeHold(old(table), k, n, strong)
                    else SentHandle(old(table), table, k, n, strong, false, r))
    {
      if (p, desc) !in table.byDesc {
        return false;
      }
      var from := table.byDesc[(p, desc)];
      assert DescAt(table, (p, desc));
      if strong && table.refs[from].strong == 0 {
        return false;
      }
      if denied {
        return false;
      }
      var n := table.refs[from].node;
      assert RefAt(table, from);
      NoRefsNoStrong(table.refs, n);
      if table.nodes[n].proc == Some(table.buffers[k].proc) {
        HoldSteady(table, k, n, strong);
        HoldAlerts(table, k, n, strong);
        HoldNode(k, n, strong);
      } else {
        ok := SendHandle(k, n, strong, r, memory, false);
        return;
      }
      return true;
    }

    /** binder_transaction_buffer_release: buffer `k` gives back everything it holds, one count for each hold. */
    method ReleaseBuffer(k: nat)
      requires Valid() && k < |table.buffers|
      modifies this`table
      ensures Valid() && table.buffers == old(table.buffers)[..k] + old(table.buffers)[k + 1..]
      ensures Shrinks(old(table), table) && Steady(old(table), table) && Alerted(old(table), table)
      ensures table.refs == GivenUp(old(table.refs), old(table.buffers[k].proc), old(table.buffers[k].holds))
      ensures table.context == old(table.context)
    {
      var p := table.buffers[k].proc;
      while |table.buffers[k].holds| > 0
        invariant Valid() && k < |table.buffers| && table.context == old(table.context) && Shrinks(old(table), table)
        invariant Steady(old(table), table) && Alerted(old(table), table)
        invariant table.buffers == old(table.buffers)[k := Buffer(p, table.buffers[k].holds)]
        invariant GivenUp(table.refs, p, table.buffers[k].holds) == GivenUp(old(table.refs), p, old(table.buffers[k].holds))
        decreases |table.buffers[k].holds|
      {
        ghost var before := table;
        if table.buffers[k].holds[0].Local? {
          ReleaseNode(k);
        } else {
          ReleaseHandle(k);
        }
        SteadyOn(old(table), before, table);
        AlertedOn(old(table), before, table);
      }
      EmptyBufferGone(table, k);
      SameAlerts(table, table.(buffers := table.buffers[..k] + table.buffers[k + 1..]));
      AlertedOn(old(table), table, table.(buffers := table.buffers[..k] + table.buffers[k + 1..]));
      LogKept(table, table.(buffers := table.buffers[..k] + table.buffers[k + 1..]), told);
      table := table.(buffers := table.buffers[..k] + table.buffers[k + 1..]);
    }

    /** Giving back the handle that is the first hold of buffer `k`, if its reference is still there. */
    method ReleaseHandle(k: nat)
      requires Valid() && k < |table.buffers| && |table.buffers[k].holds| > 0 && table.buffers[k].holds[0].Handle?
      modifies this`table
      ensures Valid() && table.context == old(table.context)
      ensures Shrinks(old(table), table) && Steady(old(table), table) && Alerted(old(table), table)
      ensures table.buffers == old(table.buffers)[k := Buffer(old(table.buffers[k].proc), old(table.buffers[k].holds)[1..])]
      ensures table.refs == OneGivenUp(old(table.refs), old(table.buffers[k].proc), old(table.buffers[k].holds)[0])
    {
      var p, h := table.buffers[k].proc, table.buffers[k].holds[0];
      DescUnique(table, p, h.desc);
      WithBufferKeeps(table, k, table.buffers[k].holds[1..]);
      SameAlerts(table, WithBuffer(table, k, table.buffers[k].holds[1..]));
      LogKept(table, WithBuffer(table, k, table.buffers[k].holds[1..]), told);
      table := WithBuffer(table, k, table.buffers[k].holds[1..]);
      if (p, h.desc) in table.byDesc {
        var r := table.byDesc[(p, h.desc)];
        assert Called(table.refs, p, h.desc, r);
        if !h.strong || table.refs[r].strong > 0 {
          ghost var before := table;
          var _ := DecRef(r, h.strong);
          AlertedOn(old(table), before, table);
        }
      }
    }

    /** Giving back the node that is the first hold of buffer `k`, found by its pointer. */
    method ReleaseNode(k: nat)
      requires Valid() && k < |table.buffers| && |table.buffers[k].holds| > 0 && table.buffers[k].holds[0].Local?
      modifies this`table
      ensures var h := old(table.buffers[k].holds)[0];
              && OnlyNode(old(table), table, h.node) && h.node in old(table.nodes)
              && (h.node in table.nodes ==> Lessened(old(table.nodes)[h.node], table.nodes[h.node], h.strong, false, HasRefs(table.refs, h.node)))
      ensures Valid() && table.refs == old(table.refs) && table.context == old(table.context)
      ensures Shrinks(old(table), table) && Steady(old(table), table) && Alerted(old(table), table)
      ensures table.buffers == old(table.buffers)[k := Buffer(old(table.buffers[k].proc), old(table.buffers[k].holds)[1..])]
    {
      var p, h := table.buffers[k].proc, table.buffers[k].holds[0];
      FirstHold(table, k);
      // the node is still there under its pointer
      var n := table.byPtr[(p, h.ptr)];
      assert n == h.node;
      var freed := DecNode(table.nodes[n], h.strong, false, HasRefs(table.refs, n)) == None;
      LetGo(k, n);
      if freed {
        FreeNode(n);
      }
    }

    /** The counters and holds once buffer `k` has given back its first hold, which is node `n`. */
    method LetGo(k: nat, n: NodeId)
      requires Valid() && k < |table.buffers| && |table.buffers[k].holds| > 0 && table.buffers[k].holds[0].Local?
      requires n == table.buffers[k].holds[0].node && n in table.nodes
      modifies this`table
      ensures Valid() && Shrinks(old(table), table) && Steady(old(table), table) && n in table.nodes
      ensures DecNode(old(table.nodes[n]), old(table.buffers[k].holds)[0].strong, false, HasRefs(table.refs, n)).Some? ==>
                Lessened(old(table.nodes[n]), table.nodes[n], old(table.buffers[k].holds)[0].strong, false, HasRefs(table.refs, n))
      ensures Alerted(old(table), if DecNode(old(table.nodes[n]), old(table.buffers[k].holds)[0].strong, false, HasRefs(table.refs, n)).Some? then table
                                  else WithoutNode(table, n))
      ensures var h := old(table.buffers[k].holds)[0];
              && table == GiveBack(old(table), k, table.nodes[n])
              && (DecNode(old(table.nodes[n]), h.strong, false, HasRefs(table.refs, n)) == None ==>
                    && !HasRefs(table.refs, n) && table.context != Some(n) && table.nodes[n].localStrong == 0 && table.nodes[n].localWeak == 0
                    && (table.nodes[n].proc.Some? ==> !table.nodes[n].hasWeak && !table.nodes[n].hasStrong))
    {
      var h := table.buffers[k].holds[0];
      GivenBackKeeps(table, k);
      var m := GivenBack(table.nodes[n], h.strong, HasRefs(table.refs, n));
      BackExact(table, k);
      BackAlerts(table, k);
      LogKept(table, GiveBack(table, k, m), told);
      table := GiveBack(table, k, m);
    }

    /**
     binder_deferred_release, as far as nodes and references go: the nodes of `p` are
     freed or orphaned, then its references are deleted.  Its buffers go without
     giving anything back.
     */
    method ReleaseProc(p: ProcId)
      requires Valid()
      modifies this`table, this`told
      ensures Valid() && told == LogWithout(old(told), p) && Spared(old(table), table, p) && Alerted(old(table), table)
      ensures forall n :: n in table.nodes ==> table.nodes[n].proc != Some(p)
      // Its nodes stay, without owner, exactly as long as others refer to them.
      ensures forall n :: n in NodesOf(old(table), p) ==>
                && (n in table.nodes <==> HasRefs(table.refs, n))
                && (n in table.nodes ==> LeftAlone(old(table.nodes)[n], table.nodes[n]))
      ensures forall r :: r in table.refs ==> r in old(table.refs) && table.refs[r].proc != p
      ensures forall r :: r in old(table.refs) && old(table.refs[r].proc) != p ==> r in table.refs && table.refs[r] == old(table.refs[r])
      ensures table.buffers == Others(old(table.buffers), p)
      ensures forall n :: n in old(table.nodes) && n !in table.nodes && old(table.nodes)[n].proc.Some? && old(table.nodes)[n].proc != Some(p) ==>
                (old(table.nodes)[n].proc.value, old(table.nodes)[n].ptr) !in table.byPtr
    {
      ReleaseNodes(p);
      ghost var released := table;
      assert forall n :: n in table.nodes ==> table.nodes[n].proc != Some(p);
      assert Spared(old(table), released, p);
      ReleasingAlerts(old(table), p);
      ReleaseRefs(p);
      AlertedOn(old(table), released, table);
      SparedThrough(old(table), released, table, p);
      OrphansLeft(old(table), released, table, p);
    }

    /** The references of process `p` are deleted. */
    method ReleaseRefs(p: ProcId)
      requires Valid()
      modifies this`table
      ensures Valid() && Shrinks(old(table), table) && Spared(old(table), table, p) && Alerted(old(table), table)
      ensures table.buffers == old(table.buffers)
      ensures table.refs == map r | r in old(table.refs) && old(table.refs[r].proc) != p :: old(table.refs[r])
    {
      var mine := set r | r in table.refs && table.refs[r].proc == p;
      ghost var gone: set<RefId> := {};
      while mine != {}
        invariant Valid() && mine == set r | r in table.refs && table.refs[r].proc == p
        invariant table.refs == old(table.refs) - gone
        invariant forall r :: r in gone ==> r in old(table.refs) && old(table.refs[r].proc) == p
        invariant table.buffers == old(table.buffers) && Shrinks(old(table), table) && Spared(old(table), table, p)
        invariant Alerted(old(table), table)
        decreases mine
      {
        var r :| r in mine;
        ghost var before := table;
        DeleteRef(r);
        SparedOn(old(table), before, table, p);
        AlertedOn(old(table), before, table);
        gone := gone + {r};
        assert (set q | q in table.refs && table.refs[q].proc == p) == mine - {r};
        mine := mine - {r};
      }
      assert forall r :: r in table.refs && table.refs[r].proc == p ==> r in mine;
    }

    method ReleaseNodes(p: ProcId)
      requires Valid()
      modifies this`table, this`told
      ensures Valid() && told == LogWithout(old(told), p) && table == Releasing(old(table), p, NodesOf(old(table), p))
    {
      ghost var t0 := table;
      var todo := NodesOf(table, p);
      ghost var done := {};
      table := table.(buffers := Others(table.buffers, p),
                      context := if table.context.Some? && table.context.value in todo then None else table.context);
      assert table == Releasing(t0, p, {});
      while todo != {}
        invariant table == Releasing(t0, p, done) && NodesOf(t0, p) == todo + done && todo !! done && told == old(told)
        decreases todo
      {
        var n :| n in todo;
        assert OwnedAt(t0, n);
        var m := table.nodes[n];
        table := table.(byPtr := table.byPtr - {(p, m.ptr)},
                        nodes := if HasRefs(table.refs, n) then table.nodes[n := Orphaned(m)] else table.nodes - {n});
        ReleasedOne(t0, p, done, n);
        todo, done := todo - {n}, done + {n};
      }
      assert done == NodesOf(t0, p);
      OwnerGoneKeeps(t0, p);
      LogExit(t0, told, p);
      told := LogWithout(told, p);
    }
  }
}
