/** Whole runs of one-way calls. */
module OneWayRuns {

  import opened Wrappers
  import opened OneWayTable
  import opened OneWayDriver

  datatype Event =
    | OpenProc(p: ProcId)
    | NewThread(p: ProcId, t: ThreadId)
    | NewNode(p: ProcId, n: NodeId)
    | Send(n: NodeId)
    | Receive(p: ProcId, t: ThreadId, forProcess: bool)
    | FreeBuffer(p: ProcId, t: ThreadId, c: CallId)
    | ThreadExit(p: ProcId, t: ThreadId)
    | ProcExit(p: ProcId)

  /** The call that node `n` is serving was lost with a thread. */
  ghost predicate Stuck(s: Office, h: History, n: NodeId) {
    n in s.nodes && n in h && h[n].current.Some? && h[n].current.value in s.calls && s.calls[h[n].current.value].place == Dropped
  }

  lemma CurrentOwn(s: Office, h: History)
    requires Inv(s, h)
    ensures forall n :: n in s.nodes ==> n in h && (h[n].current.Some? ==> h[n].current.value in s.calls && s.calls[h[n].current.value].node == n)
    ensures forall n, p, t :: QueuedAt(s, h, n, p, t) ==> ThreadTodo(p, t) in s.lists
  {
    forall n | n in s.nodes
      ensures n in h && (h[n].current.Some? ==> h[n].current.value in s.calls && s.calls[h[n].current.value].node == n)
    {
      assert NodeAt(s, h, n);
    }
    forall n, p, t | QueuedAt(s, h, n, p, t)
      ensures ThreadTodo(p, t) in s.lists
    {
      assert CallAt(s, h, h[n].current.value);
    }
  }

  /** The call that node `n` is serving is in the list of thread `t` of process `p`. */
  ghost predicate QueuedAt(s: Office, h: History, n: NodeId, p: ProcId, t: ThreadId) {
    && n in s.nodes && n in h && h[n].current.Some? && h[n].current.value in s.calls
    && s.calls[h[n].current.value].place == Queued(ThreadTodo(p, t))
  }

  /** Which nodes are stuck after event `e`, and that a stuck one receives nothing. */
  ghost predicate GetsStuck(s: Office, h: History, s': Office, h': History, e: Event) {
    forall n :: n in s'.nodes ==>
      && (Stuck(s', h', n) <==> Stuck(s, h, n) || (e.ThreadExit? && QueuedAt(s, h, n, e.p, e.t)))
      && (Stuck(s, h, n) ==> n in h' && h'[n].received == h[n].received)
  }

  /** A call sent is queued or waits, so no node gets stuck by it. */
  lemma SendStuck(s: Office, h: History, n: NodeId, c: CallId, e: Event)
    requires Inv(s, h) && n in s.nodes && NodeAt(s, h, n) && c !in s.calls && e.Send?
    ensures GetsStuck(s, h, Sent(s, n, c), SentLog(s, h, n, c), e)
  {
    CurrentOwn(s, h);
  }

  lemma ReceiveStuck(s: Office, h: History, l: ListId, e: Event)
    requires Inv(s, h) && l in s.lists && s.lists[l] != [] && s.lists[l][0] in s.calls && s.calls[s.lists[l][0]].node in h && e.Receive?
    ensures GetsStuck(s, h, Taken(s, l, Delivered), TakenLog(s, h, s.lists[l][0], Delivered), e)
  {
    CurrentOwn(s, h);
    HeadInFlight(s, h, l);
  }

  lemma FreeStuck(s: Office, h: History, c: CallId, l: ListId, e: Event)
    requires Inv(s, h) && c in s.calls && s.calls[c].place == Delivered && CallAt(s, h, c) && NodeAt(s, h, s.calls[c].node)
    requires l in s.lists && e.FreeBuffer?
    ensures GetsStuck(s, h, Finished(s, c, l), FinishedLog(s, h, s.calls[c].node), e)
  {
    CurrentOwn(s, h);
  }

  /**
   One event.  A node gets stuck exactly by the exit of a thread that has its call
   in its list.  It then stays stuck, and receives nothing, until its owner exits.
   */
  method Step(m: OneWay, e: Event)
    requires m.Valid()
    modifies m
    ensures m.Valid()
    ensures GetsStuck(old(m.office), old(m.history), m.office, m.history, e)
  {
    CurrentOwn(m.office, m.history);
    match e
    case OpenProc(p) =>
      if ProcTodo(p) !in m.office.lists {
        m.OpenProc(p);
      }
    case NewThread(p, t) =>
      if ProcTodo(p) in m.office.lists && ThreadTodo(p, t) !in m.office.lists {
        m.NewThread(p, t);
      }
    case NewNode(p, n) =>
      if ProcTodo(p) in m.office.lists && n !in m.office.nodes {
        m.NewNode(p, n);
      }
    case Send(n) =>
      if n in m.office.nodes {
        assert NodeAt(m.office, m.history, n);
        SendStuck(m.office, m.history, n, m.next, e);
        var _ := m.Send(n);
      }
    case Receive(p, t, forProcess) =>
      if ThreadTodo(p, t) in m.office.lists {
        var c := m.Receive(p, t, forProcess);
        if c.Some? {
          ReceiveStuck(old(m.office), old(m.history), if old(m.office).lists[ThreadTodo(p, t)] != [] then ThreadTodo(p, t) else ProcTodo(p), e);
        }
      }
    case FreeBuffer(p, t, c) =>
      if ThreadTodo(p, t) in m.office.lists {
        var o := m.FreeBuffer(p, t, c);
        if o == OneWayDriver.Done {
          assert CallAt(old(m.office), old(m.history), c) && NodeAt(old(m.office), old(m.history), old(m.office).calls[c].node);
          FreeStuck(old(m.office), old(m.history), c, ThreadTodo(p, t), e);
        }
      }
    case ThreadExit(p, t) =>
      if ThreadTodo(p, t) in m.office.lists {
        m.FreeThread(p, t);
      }
    case ProcExit(p) =>
      if ProcTodo(p) in m.office.lists {
        m.Exit(p);
      }
  }

  method Run(events: seq<Event>) returns (m: OneWay)
    ensures fresh(m) && m.Valid()
  {
    m := new OneWay();
    for k := 0 to |events|
      invariant fresh(m) && m.Valid()
    {
      Step(m, events[k]);
    }
  }

  /** At most one call to a node is out at a time, and the node's flag says whether one is. */
  lemma OneInFlight(s: Office, h: History, n: NodeId)
    requires Inv(s, h) && n in s.nodes
    ensures forall c, d ::
              (c in s.calls && d in s.calls && s.calls[c].node == n && s.calls[d].node == n && s.calls[c].place != Waiting && s.calls[d].place != Waiting)
              ==> c == d
    ensures s.nodes[n].hasAsync <==> exists c :: c in s.calls && s.calls[c].node == n && s.calls[c].place != Waiting
  {
    assert NodeAt(s, h, n);
    forall c | c in s.calls && s.calls[c].node == n && s.calls[c].place != Waiting
      ensures h[n].current == Some(c)
    {
      assert CallAt(s, h, c);
    }
  }

  /** Calls to a node are received in the order they were sent, without gaps. */
  lemma ReceivedInOrder(s: Office, h: History, n: NodeId)
    requires Inv(s, h) && n in s.nodes
    ensures n in h && h[n].received <= h[n].sent
    ensures |h[n].received| + |Pending(s, h[n])| + |s.nodes[n].asyncTodo| == |h[n].sent|
  {
    assert NodeAt(s, h, n);
  }

  /** The call that a list offers next is the earliest that its node has not received. */
  lemma NextIsEarliest(s: Office, h: History, l: ListId)
    requires Inv(s, h) && l in s.lists && s.lists[l] != []
    ensures var c := s.lists[l][0];
            && c in s.calls && s.calls[c].node in h
            && var log := h[s.calls[c].node];
               |log.received| < |log.sent| && log.sent[|log.received|] == c
  {
    HeadInFlight(s, h, l);
    assert NodeAt(s, h, s.calls[s.lists[l][0]].node);
  }

  // --- a node that gets stuck -----------------------------------------------------

  // A run: two calls to node 5 of process 1, whose only thread is 7.

  function Ready(): Office {
    Office(map[5 := Node(1, false, [])], map[], map[ProcTodo(1) := [], ThreadTodo(1, 7) := []])
  }

  function Both(): Office {
    Office(map[5 := Node(1, true, [1])], map[0 := Call(5, Queued(ProcTodo(1))), 1 := Call(5, Waiting)],
           map[ProcTodo(1) := [0], ThreadTodo(1, 7) := []])
  }

  function Second(): Office {
    Office(map[5 := Node(1, true, [])], map[1 := Call(5, Queued(ThreadTodo(1, 7)))], map[ProcTodo(1) := [], ThreadTodo(1, 7) := [1]])
  }

  lemma RunOfTwo()
    ensures Sent(Sent(Ready(), 5, 0), 5, 1) == Both()
    ensures Finished(Taken(Both(), ProcTodo(1), Delivered), 0, ThreadTodo(1, 7)) == Second()
    ensures var h := map[5 := Log([], [], None)];
            SentLog(Sent(Ready(), 5, 0), SentLog(Ready(), h, 5, 0), 5, 1) == map[5 := Log([0, 1], [], Some(0))]
  {
    var first := Ready();
    var one := Office(map[5 := Node(1, true, [])], map[0 := Call(5, Queued(ProcTodo(1)))], map[ProcTodo(1) := [0], ThreadTodo(1, 7) := []]);
    var none: seq<CallId> := [];
    assert none + [0] == [0] && none + [1] == [1] && [0][1..] == none && [1][1..] == none;
    assert [0] + [1] == [0, 1];
    SameOffice(Sent(first, 5, 0), one);
    SameOffice(Sent(one, 5, 1), Both());
    var taken := Office(map[5 := Node(1, true, [1])], map[0 := Call(5, Delivered), 1 := Call(5, Waiting)],
                        map[ProcTodo(1) := [], ThreadTodo(1, 7) := []]);
    SameOffice(Taken(Both(), ProcTodo(1), Delivered), taken);
    SameOffice(Finished(taken, 0, ThreadTodo(1, 7)), Second());
  }

  lemma SameOffice(s: Office, t: Office)
    requires s.nodes == t.nodes && s.calls == t.calls && s.lists == t.lists
    ensures s == t
  {
  }

  method GetReady() returns (m: OneWay)
    ensures fresh(m) && m.Valid() && m.office == Ready() && m.history == map[5 := Log([], [], None)] && m.next == 0
  {
    m := new OneWay();
    m.OpenProc(1);
    m.NewThread(1, 7);
    m.NewNode(1, 5);
    SameOffice(m.office, Ready());
  }

  method TwoSent() returns (m: OneWay)
    ensures fresh(m) && m.Valid() && m.office == Both() && m.history == map[5 := Log([0, 1], [], Some(0))]
  {
    RunOfTwo();
    m := GetReady();
    var a := m.Send(5);
    var b := m.Send(5);
  }

  /** The second call becomes work of the thread that frees the first one, and is lost with it. */
  method StuckReachable() returns (m: OneWay)
    ensures m.Valid() && Stuck(m.office, m.history, 5) && |m.history[5].sent| == 2 && |m.history[5].received| == 1
  {
    RunOfTwo();
    m := TwoSent();
    var c := m.Receive(1, 7, true);
    var o := m.FreeBuffer(1, 7, 0);
    assert m.office == Second();
    m.FreeThread(1, 7);
  }
}
