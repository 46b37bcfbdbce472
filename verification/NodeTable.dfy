/** Nodes, the references of processes to them, and the buffers that hold nodes. */
module NodeTable {
  import opened Wrappers
  import opened NodeCounts

  /** What a transaction buffer delivered to a process keeps alive. */
  datatype Hold = Local(node: NodeId, ptr: nat, strong: bool) | Handle(desc: nat, strong: bool)

  datatype Buffer = Buffer(proc: ProcId, holds: seq<Hold>)

  // --- counting ------------------------------------------------------------

  function StrongSet(refs: map<RefId, Ref>, n: NodeId): set<RefId> {
    set r | r in refs && refs[r].node == n && refs[r].strong > 0
  }

  /** The number of references that hold node `n` strongly. */
  function StrongRefs(refs: map<RefId, Ref>, n: NodeId): nat {
    |StrongSet(refs, n)|
  }

  predicate HasRefs(refs: map<RefId, Ref>, n: NodeId) {
    exists r :: r in refs && refs[r].node == n
  }

  function HoldsIn(holds: seq<Hold>, n: NodeId, strong: bool): nat {
    if holds == [] then 0
    else HoldsIn(holds[1..], n, strong) + AsNat(holds[0].Local? && holds[0].node == n && holds[0].strong == strong)
  }

  /** How often the buffers hold node `n` with the given strength. */
  function HoldCount(buffers: seq<Buffer>, n: NodeId, strong: bool): nat {
    if buffers == [] then 0 else HoldCount(buffers[1..], n, strong) + HoldsIn(buffers[0].holds, n, strong)
  }

  lemma SizeWithout(s: set<RefId>, r: RefId)
    ensures |s - {r}| == |s| - AsNat(r in s)
  {
    if r !in s {
      assert s - {r} == s;
    }
  }

  lemma StrongOthers(refs: map<RefId, Ref>, r: RefId, ref: Ref, n: NodeId)
    requires r in refs ==> refs[r].node == ref.node
    ensures StrongSet(refs[r := ref], n) - {r} == StrongSet(refs, n) - {r}
    ensures r in StrongSet(refs[r := ref], n) <==> n == ref.node && ref.strong > 0
    ensures r in StrongSet(refs, n) <==> n == ref.node && r in refs && refs[r].strong > 0
  {
  }

  lemma StrongChange(refs: map<RefId, Ref>, r: RefId, ref: Ref, n: NodeId)
    requires r in refs ==> refs[r].node == ref.node
    ensures StrongRefs(refs[r := ref], n) ==
            StrongRefs(refs, n) + (if n == ref.node then AsNat(ref.strong > 0) - AsNat(r in refs && refs[r].strong > 0) else 0)
  {
    StrongOthers(refs, r, ref, n);
    SizeWithout(StrongSet(refs, n), r);
    SizeWithout(StrongSet(refs[r := ref], n), r);
  }

  lemma StrongRemove(refs: map<RefId, Ref>, r: RefId, n: NodeId)
    requires r in refs
    ensures StrongRefs(refs - {r}, n) == StrongRefs(refs, n) - AsNat(refs[r].node == n && refs[r].strong > 0)
  {
    assert StrongSet(refs - {r}, n) == StrongSet(refs, n) - {r};
  }

  /** A node held strongly by some reference has references; without references none is strong. */
  lemma NoRefsNoStrong(refs: map<RefId, Ref>, n: NodeId)
    ensures !HasRefs(refs, n) ==> StrongRefs(refs, n) == 0
    ensures forall r :: r in refs && refs[r].node == n && refs[r].strong > 0 ==> StrongRefs(refs, n) > 0
  {
    if !HasRefs(refs, n) {
      assert StrongSet(refs, n) == {};
    }
    forall r | r in refs && refs[r].node == n && refs[r].strong > 0 ensures StrongRefs(refs, n) > 0 {
      assert r in StrongSet(refs, n);
    }
  }

  lemma {:induction false} HoldsInSplit(a: seq<Hold>, b: seq<Hold>, n: NodeId, strong: bool)
    ensures HoldsIn(a + b, n, strong) == HoldsIn(a, n, strong) + HoldsIn(b, n, strong)
  {
    if a == [] {
      assert a + b == b;
    } else {
      assert (a + b)[1..] == a[1..] + b;
      HoldsInSplit(a[1..], b, n, strong);
    }
  }

  lemma {:induction false} HoldCountSplit(a: seq<Buffer>, b: seq<Buffer>, n: NodeId, strong: bool)
    ensures HoldCount(a + b, n, strong) == HoldCount(a, n, strong) + HoldCount(b, n, strong)
  {
    if a == [] {
      assert a + b == b;
    } else {
      assert (a + b)[1..] == a[1..] + b;
      HoldCountSplit(a[1..], b, n, strong);
    }
  }

  /** Changing one buffer changes the count by the difference of what it holds. */
  lemma HoldCountUpdate(buffers: seq<Buffer>, k: nat, b: Buffer, n: NodeId, strong: bool)
    requires k < |buffers|
    ensures HoldCount(buffers[k := b], n, strong) ==
            HoldCount(buffers, n, strong) - HoldsIn(buffers[k].holds, n, strong) + HoldsIn(b.holds, n, strong)
  {
    var head, tail := buffers[..k], buffers[k + 1..];
    assert buffers == head + [buffers[k]] + tail && buffers[k := b] == head + [b] + tail;
    HoldCountSplit(head + [buffers[k]], tail, n, strong);
    HoldCountSplit(head, [buffers[k]], n, strong);
    HoldCountSplit(head + [b], tail, n, strong);
    HoldCountSplit(head, [b], n, strong);
  }

  lemma HoldCountDrop(buffers: seq<Buffer>, k: nat, n: NodeId, strong: bool)
    requires k < |buffers|
    ensures HoldCount(buffers[..k] + buffers[k + 1..], n, strong) ==
            HoldCount(buffers, n, strong) - HoldsIn(buffers[k].holds, n, strong)
  {
    var head, tail := buffers[..k], buffers[k + 1..];
    assert buffers == head + [buffers[k]] + tail;
    HoldCountSplit(head + [buffers[k]], tail, n, strong);
    HoldCountSplit(head, [buffers[k]], n, strong);
    HoldCountSplit(head, tail, n, strong);
  }

  // --- the invariant -------------------------------------------------------

  datatype Table = Table(
    nodes: map<NodeId, Node>,
    refs: map<RefId, Ref>,
    byDesc: map<(ProcId, nat), RefId>,
    byNode: map<(ProcId, NodeId), RefId>,
    byPtr: map<(ProcId, nat), NodeId>,
    context: Option<NodeId>,
    buffers: seq<Buffer>)

  /** Reference `r` is in both indexes under its own keys, and its node exists. */
  predicate RefAt(t: Table, r: RefId)
    requires r in t.refs
  {
    var ref := t.refs[r];
    && ref.node in t.nodes
    && (ref.proc, ref.desc) in t.byDesc && t.byDesc[(ref.proc, ref.desc)] == r
    && (ref.proc, ref.node) in t.byNode && t.byNode[(ref.proc, ref.node)] == r
  }

  predicate DescAt(t: Table, k: (ProcId, nat))
    requires k in t.byDesc
  {
    t.byDesc[k] in t.refs && t.refs[t.byDesc[k]].proc == k.0 && t.refs[t.byDesc[k]].desc == k.1
  }

  predicate NodeKeyAt(t: Table, k: (ProcId, NodeId))
    requires k in t.byNode
  {
    t.byNode[k] in t.refs && t.refs[t.byNode[k]].proc == k.0 && t.refs[t.byNode[k]].node == k.1
  }

  /** The two indexes hold the same references. */
  predicate Indexed(t: Table) {
    && (forall r {:trigger RefAt(t, r)} :: r in t.refs ==> RefAt(t, r))
    && (forall k {:trigger DescAt(t, k)} :: k in t.byDesc ==> DescAt(t, k))
    && (forall k {:trigger NodeKeyAt(t, k)} :: k in t.byNode ==> NodeKeyAt(t, k))
  }

  predicate OwnedAt(t: Table, n: NodeId)
    requires n in t.nodes
  {
    var node := t.nodes[n];
    node.proc.Some? ==> (node.proc.value, node.ptr) in t.byPtr && t.byPtr[(node.proc.value, node.ptr)] == n
  }

  predicate PtrAt(t: Table, k: (ProcId, nat))
    requires k in t.byPtr
  {
    t.byPtr[k] in t.nodes && t.nodes[t.byPtr[k]].proc == Some(k.0) && t.nodes[t.byPtr[k]].ptr == k.1
  }

  predicate Owned(t: Table) {
    && (forall n {:trigger OwnedAt(t, n)} :: n in t.nodes ==> OwnedAt(t, n))
    && (forall k {:trigger PtrAt(t, k)} :: k in t.byPtr ==> PtrAt(t, k))
  }

  predicate CountedAt(t: Table, n: NodeId)
    requires n in t.nodes
  {
    Counted(t.nodes[n], StrongRefs(t.refs, n), HoldCount(t.buffers, n, true), HoldCount(t.buffers, n, false),
            t.context == Some(n))
  }

  predicate AllCounted(t: Table) {
    && (forall n {:trigger CountedAt(t, n)} :: n in t.nodes ==> CountedAt(t, n))
    && (t.context.Some? ==> t.context.value in t.nodes)
  }

  /** A node that a buffer holds is owned by the buffer's process. */
  predicate HoldAt(t: Table, k: nat, i: nat)
    requires k < |t.buffers| && i < |t.buffers[k].holds|
  {
    var h := t.buffers[k].holds[i];
    h.Local? ==>
      h.node in t.nodes && t.nodes[h.node].proc == Some(t.buffers[k].proc) && t.nodes[h.node].ptr == h.ptr
  }

  predicate Held(t: Table) {
    forall k, i {:trigger HoldAt(t, k, i)} :: 0 <= k < |t.buffers| && 0 <= i < |t.buffers[k].holds| ==> HoldAt(t, k, i)
  }

  predicate Inv(t: Table) {
    Indexed(t) && Owned(t) && AllCounted(t) && Held(t)
  }

  lemma {:induction false} NotHeldIn(holds: seq<Hold>, n: NodeId, strong: bool)
    requires forall i :: 0 <= i < |holds| ==> !(holds[i].Local? && holds[i].node == n)
    ensures HoldsIn(holds, n, strong) == 0
  {
    if holds != [] {
      NotHeldIn(holds[1..], n, strong);
    }
  }

  lemma {:induction false} NotHeld(buffers: seq<Buffer>, n: NodeId, strong: bool)
    requires forall k, i :: 0 <= k < |buffers| && 0 <= i < |buffers[k].holds| ==>
               !(buffers[k].holds[i].Local? && buffers[k].holds[i].node == n)
    ensures HoldCount(buffers, n, strong) == 0
  {
    if buffers != [] {
      NotHeldIn(buffers[0].holds, n, strong);
      assert forall k, i :: 0 <= k < |buffers[1..]| && 0 <= i < |buffers[1..][k].holds| ==>
               buffers[1..][k].holds[i] == buffers[k + 1].holds[i];
      NotHeld(buffers[1..], n, strong);
    }
  }

  /** A node that does not exist is held by nothing. */
  lemma AbsentNotHeld(t: Table, n: NodeId, strong: bool)
    requires Held(t) && n !in t.nodes
    ensures HoldCount(t.buffers, n, strong) == 0
  {
    forall k, i | 0 <= k < |t.buffers| && 0 <= i < |t.buffers[k].holds|
      ensures !(t.buffers[k].holds[i].Local? && t.buffers[k].holds[i].node == n)
    {
      assert HoldAt(t, k, i);
    }
    NotHeld(t.buffers, n, strong);
  }
}
