/** Every run of commands on nodes and references keeps the counts exact. */
module NodeRuns {
  import opened Wrappers
  import opened NodeCounts
  import opened NodeTable
  import opened NodeSteps
  import opened NodeAlerts
  import opened NodeDriver

  /** The commands of a run; `n` and `r` are the addresses that new nodes and references would get. */
  datatype Command =
    | SetManager(p: ProcId, n: NodeId, denied: bool, uid: nat, memory: bool)
    | Count(p: ProcId, desc: nat, strong: bool, up: bool, r: RefId)
    | Done(p: ProcId, ptr: nat, cookie: nat, strong: bool)
    | Tell(n: NodeId)
    | Drop(n: NodeId)
    | NewTransaction(p: ProcId)
    | Target(k: nat, p: ProcId, desc: nat)
    | SendObject(k: nat, p: ProcId, ptr: nat, cookie: nat, strong: bool, n: NodeId, r: RefId, memory: bool, memory2: bool, denied: bool)
    | PassHandle(k: nat, p: ProcId, desc: nat, strong: bool, r: RefId, memory: bool, denied: bool)
    | Free(k: nat)
    | Exit(p: ProcId)

  /**
   What a step does to nodes.  One leaves the table only when no reference to it
   is left; and, unless its owner exits, only when the notices about its object
   have led back to holding nothing.
   */
  ghost predicate Settled(t: Table, t': Table, told: map<Object, seq<Notice>>, cmd: Command) {
    forall n :: n in t.nodes && n !in t'.nodes ==>
      && !HasRefs(t'.refs, n)
      && (t.nodes[n].proc.Some? && cmd != Exit(t.nodes[n].proc.value) ==>
            ObeyAll(Holding(false, false), LogOf(told, (t.nodes[n].proc.value, t.nodes[n].ptr))) == Some(Holding(false, false)))
  }

  /** One notice more that was sent. */
  predicate OneMore(log: seq<Notice>, log': seq<Notice>) {
    |log'| == |log| + 1 && log'[..|log|] == log && log'[|log|] != Presumed
  }

  /**
   What a step does to the logs.  One notice joins that of an object when its
   owner reads the work entry of its node and holds it otherwise than needed; the
   context manager is presumed to hold its object; the logs of a process end with
   it; and no other command touches any.
   */
  ghost predicate LogStep(t: Table, t': Table, told: map<Object, seq<Notice>>, told': map<Object, seq<Notice>>, cmd: Command) {
    match cmd
    case Tell(n) =>
      if n in t.nodes && t.nodes[n].proc.Some? && t.nodes[n].queued && !UpToDate(t.nodes[n], HasRefs(t.refs, n)) then
        var k := (t.nodes[n].proc.value, t.nodes[n].ptr);
        OneMore(LogOf(told, k), LogOf(told', k)) && told' == told[k := LogOf(told', k)]
      else told' == told
    case SetManager(p, n, _, _, _) =>
      told' == if t.context == None && t'.context == Some(n) then told[(p, 0) := LogOf(told, (p, 0)) + [Presumed]] else told
    case Exit(p) => told' == LogWithout(told, p)
    case _ => told' == told
  }

  /**
   What a step does to the nodes that stay.  Reading work and acknowledging concern
   one node; an exit leaves those of other processes to their owners; and every
   other command changes nothing but counters and work entries.
   */
  ghost predicate OthersSteady(t: Table, t': Table, cmd: Command) {
    match cmd
    case Tell(n) => OnlyNode(t, t', n)
    case Done(p, ptr, _, strong) =>
      if (p, ptr) in t.byPtr && t.byPtr[(p, ptr)] in t.nodes && t'.nodes != t.nodes then
        var n := t.byPtr[(p, ptr)];
        n in t'.nodes && t'.nodes == t.nodes[n := t'.nodes[n]] && Settles(t.nodes[n], t'.nodes[n], strong, HasRefs(t.refs, n))
      else t'.nodes == t.nodes
    case Exit(p) => Spared(t, t', p)
    case _ => Steady(t, t')
  }

  /**
   No command leaves an owner without news: a node that was new, or that its owner
   held as needed, or for which there was work, is so afterwards.  And none leaves
   a node behind: one that was wanted is so afterwards, or gone.  Only the exit of a
   thread takes work away, and only that of the node concerned.
   */
  ghost predicate AlertStep(t: Table, t': Table, cmd: Command) {
    && (forall n {:trigger Alert(t', n)} :: n in t'.nodes && (n in t.nodes ==> Alert(t, n)) && cmd != Drop(n) ==> Alert(t', n))
    && (forall n {:trigger WantedAt(t', n)} :: n in t.nodes && n in t'.nodes && WantedAt(t, n) && cmd != Drop(n) ==> WantedAt(t', n))
  }

  lemma DropAlerts(t: Table, n: NodeId, m: Node)
    requires n in t.nodes
    ensures AlertStep(t, WithNode(t, n, m), Drop(n))
  {
    forall x | x in t.nodes && x != n
      ensures Alert(WithNode(t, n, m), x) == Alert(t, x) && WantedAt(WithNode(t, n, m), x) == WantedAt(t, x)
    {
    }
  }

  lemma NoneLeft(t: Table)
    requires Inv(t)
    ensures forall n :: n !in t.nodes ==> !HasRefs(t.refs, n)
  {
    forall r | r in t.refs
      ensures t.refs[r].node in t.nodes
    {
      assert RefAt(t, r);
    }
  }

  lemma ShrinkSettled(t: Table, t': Table, told: map<Object, seq<Notice>>, cmd: Command)
    requires Shrinks(t, t') && Inv(t') && Logged(t', told)
    ensures Settled(t, t', told, cmd)
  {
    NoneLeft(t');
    forall n | n in t.nodes && n !in t'.nodes && t.nodes[n].proc.Some?
      ensures ObeyAll(Holding(false, false), LogOf(told, (t.nodes[n].proc.value, t.nodes[n].ptr))) == Some(Holding(false, false))
    {
      assert LogAt(t', told, (t.nodes[n].proc.value, t.nodes[n].ptr));
    }
  }

  lemma ExitSettled(t: Table, t': Table, told: map<Object, seq<Notice>>, p: ProcId)
    requires Inv(t') && Logged(t', told)
    requires forall n :: n in t.nodes && n !in t'.nodes && t.nodes[n].proc.Some? && t.nodes[n].proc != Some(p) ==>
               (t.nodes[n].proc.value, t.nodes[n].ptr) !in t'.byPtr
    ensures Settled(t, t', told, Exit(p))
  {
    NoneLeft(t');
    forall n | n in t.nodes && n !in t'.nodes && t.nodes[n].proc.Some? && t.nodes[n].proc != Some(p)
      ensures ObeyAll(Holding(false, false), LogOf(told, (t.nodes[n].proc.value, t.nodes[n].ptr))) == Some(Holding(false, false))
    {
      assert LogAt(t', told, (t.nodes[n].proc.value, t.nodes[n].ptr));
    }
  }

  method Step(d: Nodes, cmd: Command)
    requires d.Valid()
    modifies d
    ensures d.Valid() && Settled(old(d.table), d.table, d.told, cmd)
    ensures LogStep(old(d.table), d.table, old(d.told), d.told, cmd) && OthersSteady(old(d.table), d.table, cmd)
    ensures AlertStep(old(d.table), d.table, cmd)
  {
    if cmd.NewTransaction? || cmd.Target? || cmd.SendObject? || cmd.PassHandle? || cmd.Free? {
      Transact(d, cmd);
      return;
    }
    match cmd
    case SetManager(p, n, denied, uid, memory) =>
      if n !in d.table.nodes {
        var _ := d.SetContextManager(p, n, denied, uid, memory);
      }
    case Count(p, desc, strong, up, r) =>
      if r !in d.table.refs {
        var _ := d.RefCommand(p, desc, strong, up, r);
        ShrinkSettled(old(d.table), d.table, d.told, cmd);
      }
    case Done(p, ptr, cookie, strong) =>
      var _ := d.Acknowledge(p, ptr, cookie, strong);
    case Tell(n) =>
      if n in d.table.nodes && d.table.nodes[n].proc.Some? && d.table.nodes[n].queued {
        var _ := d.ReadWork(n);
        ShrinkSettled(old(d.table), d.table, d.told, cmd);
      }
    case Drop(n) =>
      if n in d.table.nodes {
        DropAlerts(d.table, n, d.table.nodes[n].(queued := false));
        d.DropWork(n);
      }
    case Exit(p) =>
      d.ReleaseProc(p);
      ExitSettled(old(d.table), d.table, d.told, p);
  }

  /** The commands that make, fill and free transaction buffers. */
  method Transact(d: Nodes, cmd: Command)
    requires d.Valid() && (cmd.NewTransaction? || cmd.Target? || cmd.SendObject? || cmd.PassHandle? || cmd.Free?)
    modifies d`table
    ensures d.Valid() && Settled(old(d.table), d.table, d.told, cmd) && Steady(old(d.table), d.table) && Alerted(old(d.table), d.table)
  {
    match cmd
    case NewTransaction(p) =>
      SameAlerts(d.table, d.table.(buffers := d.table.buffers + [Buffer(p, [])]));
      d.NewBuffer(p);
    case Target(k, p, desc) =>
      if k < |d.table.buffers| {
        var _ := d.HoldTarget(k, p, desc);
      }
    case SendObject(k, p, ptr, cookie, strong, n, r, memory, memory2, denied) =>
      if k < |d.table.buffers| && n !in d.table.nodes && r !in d.table.refs {
        var _ := d.TranslateBinder(k, p, ptr, cookie, strong, n, r, memory, memory2, denied);
      }
    case PassHandle(k, p, desc, strong, r, memory, denied) =>
      if k < |d.table.buffers| && r !in d.table.refs {
        var _ := d.TranslateHandle(k, p, desc, strong, r, memory, denied);
      }
    case Free(k) =>
      if k < |d.table.buffers| {
        d.ReleaseBuffer(k);
        ShrinkSettled(old(d.table), d.table, d.told, cmd);
      }
  }

  /**
   In every run each node's counters are exact and its owner's notices are well
   nested.  If no thread exits with work, every living owner holds each of
   its nodes as it is needed, or has a work entry from which it will be told; and
   every node without owner has a reference.
   */
  method Run(cmds: seq<Command>) returns (d: Nodes)
    ensures fresh(d) && d.Valid()
    ensures (forall i :: 0 <= i < |cmds| ==> !cmds[i].Drop?) ==> forall n :: n in d.table.nodes ==> Alert(d.table, n)
  {
    d := new Nodes();
    for i := 0 to |cmds|
      invariant d.Valid() && fresh(d)
      invariant (forall j :: 0 <= j < i ==> !cmds[j].Drop?) ==> forall n :: n in d.table.nodes ==> Alert(d.table, n)
    {
      Step(d, cmds[i]);
    }
  }

  /**
   The notices about every object are well nested, through all the nodes it has
   had, and lead to what its node, if it has one, says its owner holds.
   */
  lemma NoticesNested(d: Nodes, k: Object)
    requires d.Valid()
    ensures var h := ObeyAll(Holding(false, false), LogOf(d.told, k));
            if k in d.table.byPtr then
              var n := d.table.byPtr[k];
              n in d.table.nodes && h == Some(Holding(d.table.nodes[n].hasWeak, d.table.nodes[n].hasStrong))
            else h == Some(Holding(false, false))
  {
    assert LogAt(d.table, d.told, k);
    assert k in d.table.byPtr ==> PtrAt(d.table, k);
  }

  /** What the invariant says of one node with a live owner. */
  lemma CountsExact(t: Table, n: NodeId)
    requires Inv(t) && n in t.nodes
    ensures t.nodes[n].internalStrong == |set r | r in t.refs && t.refs[r].node == n && t.refs[r].strong > 0|
    ensures t.nodes[n].proc.Some? ==>
              && t.nodes[n].localStrong == AsNat(t.nodes[n].pendingStrong) + AsNat(t.context == Some(n)) + HoldCount(t.buffers, n, true)
              && t.nodes[n].localWeak == AsNat(t.nodes[n].pendingWeak) + AsNat(t.context == Some(n)) + HoldCount(t.buffers, n, false)
              && (t.nodes[n].hasStrong ==> t.nodes[n].hasWeak)
  {
    assert CountedAt(t, n);
    assert (set r | r in t.refs && t.refs[r].node == n && t.refs[r].strong > 0) == StrongSet(t.refs, n);
  }

  /** Both indexes hold exactly the references of the table, each under its own descriptor and its own node. */
  lemma IndexesAgree(t: Table)
    requires Inv(t)
    ensures t.byDesc.Values == t.byNode.Values == t.refs.Keys
    ensures forall p, desc, r :: (p, desc) in t.byDesc && t.byDesc[(p, desc)] == r <==> r in t.refs && t.refs[r].proc == p && t.refs[r].desc == desc
    ensures forall p, n, r :: (p, n) in t.byNode && t.byNode[(p, n)] == r <==> r in t.refs && t.refs[r].proc == p && t.refs[r].node == n
    ensures forall r :: r in t.refs ==> t.refs[r].node in t.nodes
  {
    assert forall r :: r in t.refs ==> RefAt(t, r);
    assert forall k :: k in t.byDesc ==> DescAt(t, k);
    assert forall k :: k in t.byNode ==> NodeKeyAt(t, k);
    forall r | r in t.refs
      ensures r in t.byDesc.Values && r in t.byNode.Values
    {
      assert t.byDesc[(t.refs[r].proc, t.refs[r].desc)] == r && t.byNode[(t.refs[r].proc, t.refs[r].node)] == r;
    }
  }

  /** A process has at most one reference to a node and at most one under a descriptor. */
  lemma ReferencesApart(t: Table, q: RefId, r: RefId)
    requires Inv(t) && q in t.refs && r in t.refs && t.refs[q].proc == t.refs[r].proc
    ensures t.refs[q].node == t.refs[r].node <==> q == r
    ensures t.refs[q].desc == t.refs[r].desc <==> q == r
  {
    assert RefAt(t, q) && RefAt(t, r);
  }

  // --- a weak handle that is not counted ----------------------------------------

  /** Process 1 has sent its object 8 to process 2 as weak handle, and the thread that was to be told of it has exited. */
  ghost predicate Unheld(d: Nodes, n: NodeId, desc: nat)
    reads d
  {
    && d.Valid() && |d.table.buffers| == 1 && n in d.table.nodes && d.table.nodes[n].proc == Some(1)
    && !d.table.nodes[n].hasWeak && !d.table.nodes[n].queued
    && d.table.refs.Keys == {0} && d.table.refs[0] == Ref(2, n, desc, 0, 1)
  }

  method SentAndDropped() returns (d: Nodes, n: NodeId, desc: nat)
    ensures fresh(d) && Unheld(d, n, desc)
  {
    d := new Nodes();
    d.NewBuffer(2);
    var ok := d.TranslateBinder(0, 1, 8, 0, false, 0, 0, true, true, false);
    assert PtrAt(d.table, (1, 8)) && LogAt(d.table, d.told, (1, 8));
    n := d.table.byPtr[(1, 8)];
    desc := d.table.refs[0].desc;
    d.DropWork(n);
  }

  /** A run in which process 3 is given a weak handle that no reference counts. */
  method WeakUncounted() returns (d: Nodes, ok: bool)
    ensures fresh(d) && d.Valid() && ok && 1 in d.table.refs && d.table.refs[1].proc == 3
    ensures d.table.refs[1].strong == 0 && d.table.refs[1].weak == 0
    ensures |d.table.buffers| == 2 && d.table.buffers[1] == Buffer(3, [Handle(d.table.refs[1].desc, false)])
  {
    var n, desc;
    d, n, desc := SentAndDropped();
    d.NewBuffer(3);
    assert RefAt(d.table, 0);
    assert (3, n) !in d.table.byNode by {
      assert (3, n) in d.table.byNode ==> NodeKeyAt(d.table, (3, n));
    }
    ok := d.TranslateHandle(1, 2, desc, false, 1, true, false);
  }
}
