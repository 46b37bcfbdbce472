/**
 One-way calls.  A node serves one at a time: the next waits at the node until
 the receiver has freed the buffer of the one before.
 */
module OneWayTable {

  import opened Wrappers
  import opened Sequences

  type NodeId = nat
  type ProcId = nat
  type ThreadId = nat
  type CallId = nat

  datatype ListId = ThreadTodo(proc: ProcId, thread: ThreadId) | ProcTodo(proc: ProcId)

  /** Where a call is: waiting at its node, queued as work, in the receiver's hands, or lost with an exiting thread. */
  datatype Place = Waiting | Queued(list: ListId) | Delivered | Dropped

  /** A call and its buffer. */
  datatype Call = Call(node: NodeId, place: Place)

  datatype Node = Node(proc: ProcId, hasAsync: bool, asyncTodo: seq<CallId>)

  datatype Office = Office(nodes: map<NodeId, Node>, calls: map<CallId, Call>, lists: map<ListId, seq<CallId>>)

  /** For each node: the calls in the order they were sent and received, and the one in flight. */
  datatype Log = Log(sent: seq<CallId>, received: seq<CallId>, current: Option<CallId>)

  type History = map<NodeId, Log>

  predicate ListAt(s: Office, l: ListId)
    requires l in s.lists
  {
    Distinct(s.lists[l]) && forall i :: 0 <= i < |s.lists[l]| ==> s.lists[l][i] in s.calls && s.calls[s.lists[l][i]].place == Queued(l)
  }

  /** The call in flight, if its receiver does not have it yet. */
  function Pending(s: Office, log: Log): seq<CallId> {
    if log.current.Some? && log.current.value in s.calls && s.calls[log.current.value].place != Delivered then [log.current.value] else []
  }

  predicate NodeAt(s: Office, h: History, n: NodeId)
    requires n in s.nodes
  {
    var x := s.nodes[n];
    && n in h && ProcTodo(x.proc) in s.lists
    && x.hasAsync == h[n].current.Some? && (x.asyncTodo != [] ==> x.hasAsync)
    && (h[n].current.Some? ==> h[n].current.value in s.calls && s.calls[h[n].current.value].node == n
                               && s.calls[h[n].current.value].place != Waiting)
    && Distinct(x.asyncTodo) && (forall i :: 0 <= i < |x.asyncTodo| ==> x.asyncTodo[i] in s.calls && s.calls[x.asyncTodo[i]] == Call(n, Waiting))
    && h[n].sent == h[n].received + Pending(s, h[n]) + x.asyncTodo
  }

  predicate CallAt(s: Office, h: History, c: CallId)
    requires c in s.calls
  {
    var n := s.calls[c].node;
    && n in s.nodes && n in h
    && match s.calls[c].place
       case Waiting => c in s.nodes[n].asyncTodo
       case Queued(l) => l in s.lists && c in s.lists[l] && l.proc == s.nodes[n].proc && h[n].current == Some(c)
       case Delivered => h[n].current == Some(c)
       case Dropped => h[n].current == Some(c)
  }

  predicate Inv(s: Office, h: History) {
    && (forall n {:trigger NodeAt(s, h, n)} :: n in s.nodes ==> NodeAt(s, h, n))
    && (forall c {:trigger CallAt(s, h, c)} :: c in s.calls ==> CallAt(s, h, c))
    && (forall l {:trigger ListAt(s, l)} :: l in s.lists ==> ListAt(s, l))
    && (forall l :: l in s.lists ==> ProcTodo(l.proc) in s.lists)
  }

  /** Only node `n` and its calls differ. */
  ghost predicate OnlyAt(s: Office, h: History, s': Office, h': History, n: NodeId) {
    && s'.lists.Keys == s.lists.Keys
    && (forall m :: m != n && m in s.nodes ==> m in s'.nodes && s'.nodes[m] == s.nodes[m])
    && (forall m :: m != n && m in s'.nodes ==> m in s.nodes)
    && (forall m :: m != n && m in h ==> m in h' && h'[m] == h[m])
    && (forall c :: c in s.calls && s.calls[c].node != n ==> c in s'.calls && s'.calls[c] == s.calls[c])
    && (forall c :: c in s'.calls && s'.calls[c].node != n ==> c in s.calls && s'.calls[c] == s.calls[c])
    && (forall c :: c in s.calls && s.calls[c].node != n && s.calls[c].place.Queued? ==>
          s.calls[c].place.list in s.lists && (c in s.lists[s.calls[c].place.list] ==> c in s'.lists[s.calls[c].place.list]))
  }

  lemma OnlyAtKeeps(s: Office, h: History, s': Office, h': History, n: NodeId)
    requires Inv(s, h) && OnlyAt(s, h, s', h', n)
    requires n in s'.nodes ==> NodeAt(s', h', n)
    requires forall c :: c in s'.calls && s'.calls[c].node == n ==> CallAt(s', h', c)
    requires forall l {:trigger ListAt(s', l)} :: l in s'.lists ==> ListAt(s', l)
    ensures Inv(s', h')
  {
    forall m | m in s'.nodes
      ensures NodeAt(s', h', m)
    {
      if m != n {
        assert NodeAt(s, h, m);
        assert Pending(s', h'[m]) == Pending(s, h[m]);
      }
    }
    forall c | c in s'.calls
      ensures CallAt(s', h', c)
    {
      if s'.calls[c].node != n {
        assert CallAt(s, h, c);
      }
    }
    assert forall l :: l in s'.lists ==> l in s.lists;
  }

  // --- lists ---------------------------------------------------------------

  /** A call joins the end of a list. */
  lemma JoinList(s: Office, s': Office, c: CallId, l: ListId)
    requires forall m {:trigger ListAt(s, m)} :: m in s.lists ==> ListAt(s, m)
    requires l in s.lists && s'.lists == s.lists[l := s.lists[l] + [c]]
    requires c in s.calls ==> !s.calls[c].place.Queued?
    requires c in s'.calls && s'.calls[c].place == Queued(l)
    requires forall x :: x != c && x in s.calls && s.calls[x].place.Queued? ==> x in s'.calls && s'.calls[x].place == s.calls[x].place
    ensures forall m {:trigger ListAt(s', m)} :: m in s'.lists ==> ListAt(s', m)
  {
    forall m | m in s'.lists
      ensures ListAt(s', m)
    {
      assert ListAt(s, m);
    }
  }

  /** The first call leaves a list. */
  lemma LeaveList(s: Office, s': Office, l: ListId)
    requires forall m {:trigger ListAt(s, m)} :: m in s.lists ==> ListAt(s, m)
    requires l in s.lists && s.lists[l] != [] && s'.lists == s.lists[l := s.lists[l][1..]]
    requires forall x :: x != s.lists[l][0] && x in s.calls && s.calls[x].place.Queued? ==> x in s'.calls && s'.calls[x].place == s.calls[x].place
    ensures forall m {:trigger ListAt(s', m)} :: m in s'.lists ==> ListAt(s', m)
  {
    forall m | m in s'.lists
      ensures ListAt(s', m)
    {
      assert ListAt(s, m) && ListAt(s, l);
    }
  }

  /** Calls that are in no list come, go and change without any list noticing. */
  lemma SameLists(s: Office, s': Office)
    requires forall m {:trigger ListAt(s, m)} :: m in s.lists ==> ListAt(s, m)
    requires s'.lists == s.lists
    requires forall x :: x in s.calls && s.calls[x].place.Queued? ==> x in s'.calls && s'.calls[x].place == s.calls[x].place
    ensures forall m {:trigger ListAt(s', m)} :: m in s'.lists ==> ListAt(s', m)
  {
    forall m | m in s'.lists
      ensures ListAt(s', m)
    {
      assert ListAt(s, m);
    }
  }
}
