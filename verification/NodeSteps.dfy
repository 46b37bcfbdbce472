/** What each elementary change of the node table does to its invariant. */
module NodeSteps {
  import opened Wrappers
  import opened NodeCounts
  import opened NodeTable

  /** Changing the counters of node `n` together with reference `r` to it. */
  function WithRef(t: Table, r: RefId, ref: Ref, m: Node): Table {
    t.(refs := t.refs[r := ref], nodes := t.nodes[ref.node := m])
  }

  lemma WithRefKeeps(t: Table, r: RefId, ref: Ref, m: Node)
    requires Inv(t) && r in t.refs
    requires ref.proc == t.refs[r].proc && ref.node == t.refs[r].node && ref.desc == t.refs[r].desc
    requires ref.node in t.nodes && m.proc == t.nodes[ref.node].proc && m.ptr == t.nodes[ref.node].ptr
    requires CountedAt(WithRef(t, r, ref, m), ref.node)
    ensures Inv(WithRef(t, r, ref, m))
  {
    var t' := WithRef(t, r, ref, m);
    assert Indexed(t') by {
      forall q | q in t'.refs ensures RefAt(t', q) { assert RefAt(t, q); }
      forall k | k in t'.byDesc ensures DescAt(t', k) { assert DescAt(t, k); }
      forall k | k in t'.byNode ensures NodeKeyAt(t', k) { assert NodeKeyAt(t, k); }
    }
    NodeReplaced(t, t', ref.node);
    forall x | x in t'.nodes ensures CountedAt(t', x) {
      if x != ref.node {
        assert CountedAt(t, x);
        StrongChange(t.refs, r, ref, x);
      }
    }
  }

  /** Replacing a node by one with the same owner and pointer keeps ownership and holds. */
  lemma NodeReplaced(t: Table, t': Table, n: NodeId)
    requires Owned(t) && Held(t) && n in t.nodes
    requires t'.nodes.Keys == t.nodes.Keys && t'.byPtr == t.byPtr && t'.buffers == t.buffers
    requires t'.nodes[n].proc == t.nodes[n].proc && t'.nodes[n].ptr == t.nodes[n].ptr
    requires forall x :: x in t.nodes && x != n ==> t'.nodes[x] == t.nodes[x]
    ensures Owned(t') && Held(t')
  {
    forall x | x in t'.nodes ensures OwnedAt(t', x) { assert OwnedAt(t, x); }
    forall k | k in t'.byPtr ensures PtrAt(t', k) { assert PtrAt(t, k); }
    forall k, i | 0 <= k < |t'.buffers| && 0 <= i < |t'.buffers[k].holds| ensures HoldAt(t', k, i) {
      assert HoldAt(t, k, i);
    }
  }

  function WithNode(t: Table, n: NodeId, m: Node): Table {
    t.(nodes := t.nodes[n := m])
  }

  lemma WithNodeKeeps(t: Table, n: NodeId, m: Node)
    requires Inv(t) && n in t.nodes && m.proc == t.nodes[n].proc && m.ptr == t.nodes[n].ptr
    requires CountedAt(WithNode(t, n, m), n)
    ensures Inv(WithNode(t, n, m))
  {
    var t' := WithNode(t, n, m);
    assert Indexed(t') by {
      forall q | q in t'.refs ensures RefAt(t', q) { assert RefAt(t, q); }
      forall k | k in t'.byDesc ensures DescAt(t', k) { assert DescAt(t, k); }
      forall k | k in t'.byNode ensures NodeKeyAt(t', k) { assert NodeKeyAt(t, k); }
    }
    NodeReplaced(t, t', n);
    forall x | x in t'.nodes ensures CountedAt(t', x) {
      if x != n {
        assert CountedAt(t, x);
      }
    }
  }

  // --- nodes come and go ---------------------------------------------------

  function WithoutNode(t: Table, n: NodeId): Table
    requires n in t.nodes
  {
    var node := t.nodes[n];
    t.(nodes := t.nodes - {n}, byPtr := if node.proc.Some? then t.byPtr - {(node.proc.value, node.ptr)} else t.byPtr)
  }

  /** A node to which nothing refers can be freed. */
  lemma WithoutNodeKeeps(t: Table, n: NodeId)
    requires Inv(t) && n in t.nodes && !HasRefs(t.refs, n) && t.context != Some(n)
    requires HoldCount(t.buffers, n, true) == 0 && HoldCount(t.buffers, n, false) == 0
    ensures Inv(WithoutNode(t, n))
  {
    var t' := WithoutNode(t, n);
    assert Indexed(t') by {
      forall q | q in t'.refs ensures RefAt(t', q) { assert RefAt(t, q); }
      forall k | k in t'.byDesc ensures DescAt(t', k) { assert DescAt(t, k); }
      forall k | k in t'.byNode ensures NodeKeyAt(t', k) { assert NodeKeyAt(t, k); }
    }
    assert Owned(t') by {
      assert OwnedAt(t, n);
      forall x | x in t'.nodes ensures OwnedAt(t', x) { assert OwnedAt(t, x); }
      forall k | k in t'.byPtr ensures PtrAt(t', k) { assert PtrAt(t, k); }
    }
    forall k, i | 0 <= k < |t'.buffers| && 0 <= i < |t'.buffers[k].holds| ensures HoldAt(t', k, i) {
      assert HoldAt(t, k, i);
      UnheldAt(t.buffers, n, k, i);
    }
    forall x | x in t'.nodes ensures CountedAt(t', x) { assert CountedAt(t, x); }
  }

  lemma {:induction false} UnheldIn(holds: seq<Hold>, n: NodeId, i: nat)
    requires i < |holds| && HoldsIn(holds, n, true) == 0 && HoldsIn(holds, n, false) == 0
    ensures !(holds[i].Local? && holds[i].node == n)
  {
    if i > 0 {
      UnheldIn(holds[1..], n, i - 1);
    }
  }

  lemma {:induction false} UnheldAt(buffers: seq<Buffer>, n: NodeId, k: nat, i: nat)
    requires k < |buffers| && i < |buffers[k].holds|
    requires HoldCount(buffers, n, true) == 0 && HoldCount(buffers, n, false) == 0
    ensures !(buffers[k].holds[i].Local? && buffers[k].holds[i].node == n)
  {
    if k > 0 {
      UnheldAt(buffers[1..], n, k - 1, i);
    } else {
      UnheldIn(buffers[0].holds, n, i);
    }
  }

  function WithNewNode(t: Table, n: NodeId, m: Node, p: ProcId): Table {
    t.(nodes := t.nodes[n := m], byPtr := t.byPtr[(p, m.ptr) := n])
  }

  lemma WithNewNodeKeeps(t: Table, n: NodeId, m: Node, p: ProcId)
    requires Inv(t) && n !in t.nodes && m.proc == Some(p) && (p, m.ptr) !in t.byPtr
    requires Counted(m, 0, 0, 0, false)
    ensures Inv(WithNewNode(t, n, m, p))
  {
    var t' := WithNewNode(t, n, m, p);
    assert Indexed(t') by {
      forall q | q in t'.refs ensures RefAt(t', q) { assert RefAt(t, q); }
      forall k | k in t'.byDesc ensures DescAt(t', k) { assert DescAt(t, k); }
      forall k | k in t'.byNode ensures NodeKeyAt(t', k) { assert NodeKeyAt(t, k); }
    }
    assert Owned(t') by {
      forall x | x in t'.nodes ensures OwnedAt(t', x) { assert x != n ==> OwnedAt(t, x); }
      forall k | k in t'.byPtr ensures PtrAt(t', k) { assert k != (p, m.ptr) ==> PtrAt(t, k); }
    }
    forall k, i | 0 <= k < |t'.buffers| && 0 <= i < |t'.buffers[k].holds| ensures HoldAt(t', k, i) {
      assert HoldAt(t, k, i);
    }
    AbsentNotHeld(t, n, true);
    AbsentNotHeld(t, n, false);
    AbsentUnreferenced(t, n);
    forall x | x in t'.nodes ensures CountedAt(t', x) {
      if x != n {
        assert CountedAt(t, x);
      }
    }
  }

  lemma AbsentUnreferenced(t: Table, n: NodeId)
    requires Indexed(t) && n !in t.nodes
    ensures !HasRefs(t.refs, n) && StrongRefs(t.refs, n) == 0
  {
    forall r | r in t.refs ensures t.refs[r].node != n {
      assert RefAt(t, r);
    }
    NoRefsNoStrong(t.refs, n);
  }

  // --- references come and go ----------------------------------------------

  function WithNewRef(t: Table, r: RefId, ref: Ref): Table {
    t.(refs := t.refs[r := ref],
       byDesc := t.byDesc[(ref.proc, ref.desc) := r],
       byNode := t.byNode[(ref.proc, ref.node) := r])
  }

  lemma WithNewRefKeeps(t: Table, r: RefId, ref: Ref)
    requires Inv(t) && r !in t.refs && ref.node in t.nodes && ref.strong == 0
    requires (ref.proc, ref.desc) !in t.byDesc && (ref.proc, ref.node) !in t.byNode
    ensures Inv(WithNewRef(t, r, ref))
  {
    var t' := WithNewRef(t, r, ref);
    assert Indexed(t') by {
      forall q | q in t'.refs ensures RefAt(t', q) { assert q != r ==> RefAt(t, q); }
      forall k | k in t'.byDesc ensures DescAt(t', k) { assert k != (ref.proc, ref.desc) ==> DescAt(t, k); }
      forall k | k in t'.byNode ensures NodeKeyAt(t', k) { assert k != (ref.proc, ref.node) ==> NodeKeyAt(t, k); }
    }
    NodeReplaced(t, t', ref.node);
    forall x | x in t'.nodes ensures CountedAt(t', x) {
      assert CountedAt(t, x);
      StrongChange(t.refs, r, ref, x);
    }
  }

  function WithoutRef(t: Table, r: RefId, m: Node): Table
    requires r in t.refs
  {
    var ref := t.refs[r];
    t.(refs := t.refs - {r}, byDesc := t.byDesc - {(ref.proc, ref.desc)}, byNode := t.byNode - {(ref.proc, ref.node)},
       nodes := t.nodes[ref.node := m])
  }

  lemma WithoutRefKeeps(t: Table, r: RefId, m: Node)
    requires Inv(t) && r in t.refs && t.refs[r].node in t.nodes
    requires m.proc == t.nodes[t.refs[r].node].proc && m.ptr == t.nodes[t.refs[r].node].ptr
    requires CountedAt(WithoutRef(t, r, m), t.refs[r].node)
    ensures Inv(WithoutRef(t, r, m))
  {
    var t', ref := WithoutRef(t, r, m), t.refs[r];
    assert RefAt(t, r);
    assert Indexed(t') by {
      forall q | q in t'.refs ensures RefAt(t', q) { assert RefAt(t, q); }
      forall k | k in t'.byDesc ensures DescAt(t', k) { assert DescAt(t, k); }
      forall k | k in t'.byNode ensures NodeKeyAt(t', k) { assert NodeKeyAt(t, k); }
    }
    NodeReplaced(t, t', ref.node);
    forall x | x in t'.nodes ensures CountedAt(t', x) {
      if x != ref.node {
        assert CountedAt(t, x);
        StrongRemove(t.refs, r, x);
      }
    }
  }

  // --- buffers -------------------------------------------------------------

  /** Changing what buffer `k` holds together with the one node concerned. */
  function WithHolds(t: Table, k: nat, holds: seq<Hold>, n: NodeId, m: Node): Table
    requires k < |t.buffers|
  {
    t.(buffers := t.buffers[k := Buffer(t.buffers[k].proc, holds)], nodes := t.nodes[n := m])
  }

  lemma WithHoldsKeeps(t: Table, k: nat, holds: seq<Hold>, n: NodeId, m: Node)
    requires Inv(t) && k < |t.buffers| && n in t.nodes && m.proc == t.nodes[n].proc && m.ptr == t.nodes[n].ptr
    requires forall x, s :: x != n ==> HoldsIn(holds, x, s) == HoldsIn(t.buffers[k].holds, x, s)
    requires forall i :: 0 <= i < |holds| && holds[i].Local? && holds[i].node == n ==>
               t.nodes[n].proc == Some(t.buffers[k].proc) && holds[i].ptr == t.nodes[n].ptr
    requires forall i :: 0 <= i < |holds| && holds[i].Local? && holds[i].node != n ==> holds[i] in t.buffers[k].holds
    requires CountedAt(WithHolds(t, k, holds, n, m), n)
    ensures Inv(WithHolds(t, k, holds, n, m))
  {
    var t' := WithHolds(t, k, holds, n, m);
    IndexKept(t, t');
    OwnerKept(t, t', n);
    WithHoldsHeld(t, k, holds, n, m);
    forall x | x in t'.nodes ensures CountedAt(t', x) {
      if x != n {
        assert CountedAt(t, x);
        HoldCountUpdate(t.buffers, k, Buffer(t.buffers[k].proc, holds), x, true);
        HoldCountUpdate(t.buffers, k, Buffer(t.buffers[k].proc, holds), x, false);
      }
    }
  }

  lemma IndexKept(t: Table, t': Table)
    requires Indexed(t) && t'.refs == t.refs && t'.byDesc == t.byDesc && t'.byNode == t.byNode && t'.nodes.Keys == t.nodes.Keys
    ensures Indexed(t')
  {
    forall q | q in t'.refs ensures RefAt(t', q) { assert RefAt(t, q); }
    forall d | d in t'.byDesc ensures DescAt(t', d) { assert DescAt(t, d); }
    forall d | d in t'.byNode ensures NodeKeyAt(t', d) { assert NodeKeyAt(t, d); }
  }

  lemma OwnerKept(t: Table, t': Table, n: NodeId)
    requires Owned(t) && n in t.nodes && t'.nodes.Keys == t.nodes.Keys && t'.byPtr == t.byPtr
    requires t'.nodes[n].proc == t.nodes[n].proc && t'.nodes[n].ptr == t.nodes[n].ptr
    requires forall x :: x in t.nodes && x != n ==> t'.nodes[x] == t.nodes[x]
    ensures Owned(t')
  {
    forall x | x in t'.nodes ensures OwnedAt(t', x) { assert OwnedAt(t, x); }
    forall d | d in t'.byPtr ensures PtrAt(t', d) { assert PtrAt(t, d); }
  }

  lemma WithHoldsHeld(t: Table, k: nat, holds: seq<Hold>, n: NodeId, m: Node)
    requires Held(t) && k < |t.buffers| && n in t.nodes && m.proc == t.nodes[n].proc && m.ptr == t.nodes[n].ptr
    requires forall i :: 0 <= i < |holds| && holds[i].Local? && holds[i].node == n ==>
               t.nodes[n].proc == Some(t.buffers[k].proc) && holds[i].ptr == t.nodes[n].ptr
    requires forall i :: 0 <= i < |holds| && holds[i].Local? && holds[i].node != n ==> holds[i] in t.buffers[k].holds
    ensures Held(WithHolds(t, k, holds, n, m))
  {
    var t' := WithHolds(t, k, holds, n, m);
    forall j, i | 0 <= j < |t'.buffers| && 0 <= i < |t'.buffers[j].holds| ensures HoldAt(t', j, i) {
      if j != k {
        assert HoldAt(t, j, i);
      } else if holds[i].Local? && holds[i].node != n {
        var i' :| 0 <= i' < |t.buffers[k].holds| && t.buffers[k].holds[i'] == holds[i];
        assert HoldAt(t, k, i');
      }
    }
  }

  function WithBuffer(t: Table, k: nat, holds: seq<Hold>): Table
    requires k < |t.buffers|
  {
    t.(buffers := t.buffers[k := Buffer(t.buffers[k].proc, holds)])
  }

  /** Adding or removing handles only. */
  lemma WithBufferKeeps(t: Table, k: nat, holds: seq<Hold>)
    requires Inv(t) && k < |t.buffers|
    requires forall x, s :: HoldsIn(holds, x, s) == HoldsIn(t.buffers[k].holds, x, s)
    requires forall i :: 0 <= i < |holds| && holds[i].Local? ==> holds[i] in t.buffers[k].holds
    ensures Inv(WithBuffer(t, k, holds))
  {
    var t' := WithBuffer(t, k, holds);
    SameTables(t, t');
    assert Held(t') by {
      forall j, i | 0 <= j < |t'.buffers| && 0 <= i < |t'.buffers[j].holds| ensures HoldAt(t', j, i) {
        if j != k {
          assert HoldAt(t, j, i);
        } else if holds[i].Local? {
          var i' :| 0 <= i' < |t.buffers[k].holds| && t.buffers[k].holds[i'] == holds[i];
          assert HoldAt(t, k, i');
        }
      }
    }
    forall x | x in t'.nodes ensures CountedAt(t', x) {
      assert CountedAt(t, x);
      HoldCountUpdate(t.buffers, k, Buffer(t.buffers[k].proc, holds), x, true);
      HoldCountUpdate(t.buffers, k, Buffer(t.buffers[k].proc, holds), x, false);
    }
  }

  lemma SameTables(t: Table, t': Table)
    requires Indexed(t) && Owned(t)
    requires t'.nodes == t.nodes && t'.refs == t.refs && t'.byDesc == t.byDesc && t'.byNode == t.byNode && t'.byPtr == t.byPtr
    ensures Indexed(t') && Owned(t')
  {
    forall q | q in t'.refs ensures RefAt(t', q) { assert RefAt(t, q); }
    forall d | d in t'.byDesc ensures DescAt(t', d) { assert DescAt(t, d); }
    forall d | d in t'.byNode ensures NodeKeyAt(t', d) { assert NodeKeyAt(t, d); }
    forall x | x in t'.nodes ensures OwnedAt(t', x) { assert OwnedAt(t, x); }
    forall d | d in t'.byPtr ensures PtrAt(t', d) { assert PtrAt(t, d); }
  }

  lemma NewBufferKeeps(t: Table, p: ProcId)
    requires Inv(t)
    ensures Inv(t.(buffers := t.buffers + [Buffer(p, [])]))
  {
    var t' := t.(buffers := t.buffers + [Buffer(p, [])]);
    SameTables(t, t');
    forall j, i | 0 <= j < |t'.buffers| && 0 <= i < |t'.buffers[j].holds| ensures HoldAt(t', j, i) {
      assert HoldAt(t, j, i);
    }
    forall x | x in t'.nodes ensures CountedAt(t', x) {
      assert CountedAt(t, x);
      HoldCountSplit(t.buffers, [Buffer(p, [])], x, true);
      HoldCountSplit(t.buffers, [Buffer(p, [])], x, false);
    }
  }

  lemma EmptyBufferGone(t: Table, k: nat)
    requires Inv(t) && k < |t.buffers| && t.buffers[k].holds == []
    ensures Inv(t.(buffers := t.buffers[..k] + t.buffers[k + 1..]))
  {
    var t' := t.(buffers := t.buffers[..k] + t.buffers[k + 1..]);
    SameTables(t, t');
    forall j, i | 0 <= j < |t'.buffers| && 0 <= i < |t'.buffers[j].holds| ensures HoldAt(t', j, i) {
      assert HoldAt(t, if j < k then j else j + 1, i);
    }
    forall x | x in t'.nodes ensures CountedAt(t', x) {
      assert CountedAt(t, x);
      HoldCountDrop(t.buffers, k, x, true);
      HoldCountDrop(t.buffers, k, x, false);
    }
  }

  /** A fresh node becomes the context manager's, with a hold of its own. */
  lemma ContextKeeps(t: Table, n: NodeId, m: Node, p: ProcId)
    requires Inv(t) && t.context == None && n !in t.nodes && m.proc == Some(p) && (p, m.ptr) !in t.byPtr
    requires Counted(m, 0, 0, 0, true)
    ensures Inv(WithNewNode(t, n, m, p).(context := Some(n)))
  {
    var plain := m.(localStrong := 0, localWeak := 0, pendingStrong := false, pendingWeak := false);
    WithNewNodeKeeps(t, n, plain, p);
    var t1 := WithNewNode(t, n, plain, p);
    var t' := WithNewNode(t, n, m, p).(context := Some(n));
    assert Indexed(t') by {
      forall q | q in t'.refs ensures RefAt(t', q) { assert RefAt(t1, q); }
      forall d | d in t'.byDesc ensures DescAt(t', d) { assert DescAt(t1, d); }
      forall d | d in t'.byNode ensures NodeKeyAt(t', d) { assert NodeKeyAt(t1, d); }
    }
    NodeReplaced(t1, t', n);
    forall x | x in t'.nodes ensures CountedAt(t', x) {
      assert CountedAt(t1, x);
    }
  }

  // --- the owner exits -----------------------------------------------------

  function Others(buffers: seq<Buffer>, p: ProcId): seq<Buffer> {
    if buffers == [] then []
    else if buffers[0].proc == p then Others(buffers[1..], p)
    else [buffers[0]] + Others(buffers[1..], p)
  }

  /** binder_node_release: what is left of a node of an exiting process that has references. */
  function Orphaned(m: Node): Node {
    m.(proc := None, localStrong := 0, localWeak := 0, queued := false)
  }

  /** The table once the nodes in `done` have been released by the exit of `p`. */
  function Releasing(t: Table, p: ProcId, done: set<NodeId>): Table {
    t.(buffers := Others(t.buffers, p),
       context := if t.context.Some? && t.context.value in t.nodes && t.nodes[t.context.value].proc == Some(p) then None
                  else t.context,
       nodes := map n | n in t.nodes && (n in done ==> HasRefs(t.refs, n)) ::
                  if n in done then Orphaned(t.nodes[n]) else t.nodes[n],
       byPtr := map k | k in t.byPtr && t.byPtr[k] !in done :: t.byPtr[k])
  }

  function NodesOf(t: Table, p: ProcId): set<NodeId> {
    set n | n in t.nodes && t.nodes[n].proc == Some(p)
  }

  lemma {:induction false} OthersHolds(t: Table, buffers: seq<Buffer>, p: ProcId, n: NodeId, strong: bool)
    requires forall k, i :: 0 <= k < |buffers| && 0 <= i < |buffers[k].holds| && buffers[k].holds[i].Local? ==>
               buffers[k].holds[i].node in t.nodes && t.nodes[buffers[k].holds[i].node].proc == Some(buffers[k].proc)
    requires n in t.nodes
    ensures HoldCount(Others(buffers, p), n, strong) ==
            if t.nodes[n].proc == Some(p) then 0 else HoldCount(buffers, n, strong)
  {
    if buffers != [] {
      var rest := buffers[1..];
      assert forall k, i :: 0 <= k < |rest| && 0 <= i < |rest[k].holds| ==> rest[k].holds[i] == buffers[k + 1].holds[i];
      OthersHolds(t, rest, p, n, strong);
      if t.nodes[n].proc != Some(buffers[0].proc) {
        NotHeldIn(buffers[0].holds, n, strong);
      }
      if buffers[0].proc != p {
        assert ([buffers[0]] + Others(rest, p))[1..] == Others(rest, p);
      }
    }
  }

  lemma {:induction false} OthersFrom(buffers: seq<Buffer>, p: ProcId, k: nat)
    requires k < |Others(buffers, p)|
    ensures Others(buffers, p)[k] in buffers && Others(buffers, p)[k].proc != p
  {
    if buffers[0].proc == p {
      OthersFrom(buffers[1..], p, k);
    } else if k > 0 {
      OthersFrom(buffers[1..], p, k - 1);
    }
  }

  /** After the exit of `p` its nodes are gone or orphaned, and everybody else's counts are right. */
  lemma OwnerGoneKeeps(t: Table, p: ProcId)
    requires Inv(t)
    ensures Inv(Releasing(t, p, NodesOf(t, p)))
  {
    var t' := Releasing(t, p, NodesOf(t, p));
    assert Indexed(t') by {
      forall q | q in t'.refs ensures RefAt(t', q) { assert RefAt(t, q); }
      forall d | d in t'.byDesc ensures DescAt(t', d) { assert DescAt(t, d); }
      forall d | d in t'.byNode ensures NodeKeyAt(t', d) { assert NodeKeyAt(t, d); }
    }
    assert Owned(t') by {
      forall x | x in t'.nodes ensures OwnedAt(t', x) { assert OwnedAt(t, x); }
      forall d | d in t'.byPtr ensures PtrAt(t', d) { assert PtrAt(t, d); }
    }
    assert Held(t') by {
      forall j, i | 0 <= j < |t'.buffers| && 0 <= i < |t'.buffers[j].holds| ensures HoldAt(t', j, i) {
        OthersFrom(t.buffers, p, j);
        var j' :| 0 <= j' < |t.buffers| && t.buffers[j'] == t'.buffers[j];
        assert HoldAt(t, j', i);
      }
    }
    OwnerGoneCounts(t, p);
  }

  lemma OwnerGoneCounts(t: Table, p: ProcId)
    requires AllCounted(t) && Held(t)
    ensures AllCounted(Releasing(t, p, NodesOf(t, p)))
  {
    var t' := Releasing(t, p, NodesOf(t, p));
    forall k, i | 0 <= k < |t.buffers| && 0 <= i < |t.buffers[k].holds| && t.buffers[k].holds[i].Local?
      ensures t.buffers[k].holds[i].node in t.nodes
      ensures t.nodes[t.buffers[k].holds[i].node].proc == Some(t.buffers[k].proc)
    {
      assert HoldAt(t, k, i);
    }
    forall x | x in t'.nodes ensures CountedAt(t', x) {
      assert CountedAt(t, x);
      OthersHolds(t, t.buffers, p, x, true);
      OthersHolds(t, t.buffers, p, x, false);
    }
  }
}
