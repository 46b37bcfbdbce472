/**
 Whether owners get to know: a node that its owner holds otherwise than it is
 needed has an entry in a work list, from which the owner will read a notice.
 And whether nodes go: none stays that nothing needs, nobody holds and no work
 entry will end.
 */
module NodeAlerts {
  import opened Wrappers
  import opened NodeCounts
  import opened NodeTable

  /** The owner holds its node exactly as strongly as it is needed. */
  predicate UpToDate(n: Node, refs: bool) {
    var strong := n.internalStrong != 0 || n.localStrong != 0;
    n.hasStrong == strong && n.hasWeak == (refs || n.localWeak != 0 || strong)
  }

  /** A living owner holds its node as it is needed, or there is work for it; a node without owner has references. */
  predicate Heeded(m: Node, refs: bool) {
    if m.proc.Some? then UpToDate(m, refs) || m.queued else refs
  }

  predicate Alert(t: Table, n: NodeId)
    requires n in t.nodes
  {
    Heeded(t.nodes[n], HasRefs(t.refs, n))
  }

  /** Something needs the node, its owner holds it, or there is work for it. */
  predicate Wanted(m: Node, refs: bool) {
    refs || (m.proc.Some? && (m.queued || m.hasWeak || m.hasStrong || m.localStrong != 0 || m.localWeak != 0))
  }

  predicate WantedAt(t: Table, n: NodeId)
    requires n in t.nodes
  {
    Wanted(t.nodes[n], HasRefs(t.refs, n))
  }

  /** Nodes that were alert stay so, and new ones are; and a node that was wanted is so or gone. */
  ghost predicate Alerted(t: Table, t': Table) {
    && (forall n {:trigger Alert(t', n)} :: n in t'.nodes && (n in t.nodes ==> Alert(t, n)) ==> Alert(t', n))
    && (forall n {:trigger WantedAt(t', n)} :: n in t.nodes && n in t'.nodes && WantedAt(t, n) ==> WantedAt(t', n))
  }

  lemma AlertedOn(t: Table, t1: Table, t2: Table)
    requires Alerted(t, t1) && Alerted(t1, t2) && (t2.nodes.Keys <= t1.nodes.Keys || t.nodes.Keys <= t1.nodes.Keys)
    ensures Alerted(t, t2)
  {
    forall n | n in t2.nodes && (n in t.nodes ==> Alert(t, n))
      ensures Alert(t2, n)
    {
      assert n in t1.nodes ==> Alert(t1, n);
    }
    forall n | n in t.nodes && n in t2.nodes && WantedAt(t, n)
      ensures WantedAt(t2, n)
    {
      assert WantedAt(t1, n);
    }
  }

  /** Every node of `t'` is as it was. */
  lemma StillAlert(t: Table, t': Table)
    requires forall x :: x in t'.nodes ==> x in t.nodes && t'.nodes[x] == t.nodes[x] && HasRefs(t'.refs, x) == HasRefs(t.refs, x)
    ensures Alerted(t, t')
  {
    forall x | x in t'.nodes
      ensures Alert(t', x) == Alert(t, x) && WantedAt(t', x) == WantedAt(t, x)
    {
    }
  }

  /** A change of one node. */
  lemma OneAlert(t: Table, t': Table, n: NodeId)
    requires n in t.nodes && n in t'.nodes && t'.nodes.Keys == t.nodes.Keys
    requires forall x :: x in t.nodes && x != n ==> t'.nodes[x] == t.nodes[x] && HasRefs(t'.refs, x) == HasRefs(t.refs, x)
    requires (Alert(t, n) ==> Alert(t', n)) && (WantedAt(t, n) ==> WantedAt(t', n))
    ensures Alerted(t, t')
  {
    forall x | x in t'.nodes && x != n
      ensures Alert(t', x) == Alert(t, x) && WantedAt(t', x) == WantedAt(t, x)
    {
    }
  }

  lemma SameRefs(refs: map<RefId, Ref>, r: RefId, ref: Ref)
    requires r in refs && refs[r].node == ref.node
    ensures forall x :: HasRefs(refs[r := ref], x) == HasRefs(refs, x)
  {
    forall x
      ensures HasRefs(refs[r := ref], x) == HasRefs(refs, x)
    {
      if HasRefs(refs, x) {
        var q :| q in refs && refs[q].node == x;
        assert q in refs[r := ref];
      }
    }
  }

  lemma MoreRefs(refs: map<RefId, Ref>, r: RefId, ref: Ref)
    requires r !in refs
    ensures forall x :: x != ref.node ==> HasRefs(refs[r := ref], x) == HasRefs(refs, x)
  {
    forall x | x != ref.node
      ensures HasRefs(refs[r := ref], x) == HasRefs(refs, x)
    {
      if HasRefs(refs, x) {
        var q :| q in refs && refs[q].node == x;
        assert q in refs[r := ref];
      }
    }
  }

  lemma FewerRefs(refs: map<RefId, Ref>, r: RefId)
    requires r in refs
    ensures forall x :: x != refs[r].node ==> HasRefs(refs - {r}, x) == HasRefs(refs, x)
  {
    forall x | x != refs[r].node
      ensures HasRefs(refs - {r}, x) == HasRefs(refs, x)
    {
      if HasRefs(refs, x) {
        var q :| q in refs && refs[q].node == x;
        assert q in refs - {r};
      }
    }
  }

  /** Without a work list, a count is added only where the owner holds enough or is about to be told. */
  lemma IncHeeded(m: Node, strong: bool, list: bool, context: bool, refs: bool)
    requires Heeded(m, refs) && (list || refs || context) && m.internalStrong >= 0
    requires (m.proc.Some? && m.hasStrong ==> m.hasWeak) && (context ==> m.proc.Some? && m.hasStrong && m.localStrong > 0)
    ensures Heeded(IncNode(m, strong, true, list, context).node, true)
  {
  }

  /**
   One count less.  Work is queued exactly if that ends a need, of which the owner
   has been told something; `refs` tells whether references are left.
   */
  predicate Lessened(m: Node, m': Node, strong: bool, internal: bool, refs: bool) {
    && m' == m.(internalStrong := m.internalStrong - AsNat(strong && internal), localStrong := m.localStrong - AsNat(strong && !internal),
                localWeak := m.localWeak - AsNat(!strong && !internal), queued := m'.queued)
    && (m'.queued <==>
          || m.queued
          || (&& m.proc.Some? && (m.hasStrong || m.hasWeak)
              && (if strong then m'.localStrong == 0 && m'.internalStrong == 0 else m'.localWeak == 0 && !refs)))
  }

  lemma DecLessens(m: Node, strong: bool, internal: bool, refs: bool)
    ensures var dec := DecNode(m, strong, internal, refs); dec.Some? ==> Lessened(m, dec.value, strong, internal, refs)
  {
  }

  /** A node that a decrement leaves is wanted: one that is not is freed. */
  lemma DecWanted(m: Node, strong: bool, internal: bool, refs': bool)
    requires m.proc.None? ==> m.localStrong == 0 && m.localWeak == 0
    requires m.internalStrong > AsNat(strong && internal) ==> refs'
    requires m.internalStrong >= AsNat(strong && internal) && (m.proc.None? ==> internal)
    ensures var dec := DecNode(m, strong, internal, refs'); dec.Some? ==> Wanted(dec.value, refs')
  {
  }

  /** When a need ends, the owner is told if it holds anything; if it does not, it had work already. */
  lemma DecHeeded(m: Node, strong: bool, internal: bool, refs: bool, refs': bool)
    requires Heeded(m, refs) && (refs' ==> refs) && (strong ==> refs' == refs)
    requires if strong then (if internal then m.internalStrong else m.localStrong) > 0 else if internal then refs else m.localWeak > 0
    requires m.internalStrong >= 0 && (!refs' && !strong ==> m.internalStrong == 0)
    requires if m.proc.Some? then m.localStrong >= 0 && m.localWeak >= 0 else m.localStrong == 0 && m.localWeak == 0
    ensures var dec := DecNode(m, strong, internal, refs'); dec.Some? ==> Heeded(dec.value, refs')
  {
  }
}
