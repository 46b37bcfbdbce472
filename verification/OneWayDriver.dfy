/** Sending, receiving and finishing one-way calls, and the exits that lose them. */
module OneWayDriver {

  import opened Wrappers
  import opened OneWayTable

  datatype Freed = NoMatch | Unreturned | Done

  /** A process's lists hold calls to its own nodes only. */
  lemma OwnCalls(s: Office, h: History)
    requires Inv(s, h)
    ensures forall c :: c in s.calls ==> s.calls[c].node in s.nodes
    ensures forall c :: c in s.calls && s.calls[c].place.Queued? ==>
              s.calls[c].place.list in s.lists && c in s.lists[s.calls[c].place.list]
    ensures forall c :: c in s.calls && s.calls[c].place.Queued? ==> s.calls[c].place.list.proc == s.nodes[s.calls[c].node].proc
  {
    forall c | c in s.calls
      ensures s.calls[c].node in s.nodes
      ensures s.calls[c].place.Queued? ==> s.calls[c].place.list in s.lists && c in s.lists[s.calls[c].place.list]
      ensures s.calls[c].place.Queued? ==> s.calls[c].place.list.proc == s.nodes[s.calls[c].node].proc
    {
      assert CallAt(s, h, c);
    }
  }

  // --- sending -------------------------------------------------------------

  function Sent(s: Office, n: NodeId, c: CallId): Office
    requires n in s.nodes && ProcTodo(s.nodes[n].proc) in s.lists
  {
    var x := s.nodes[n];
    if x.hasAsync then
      s.(nodes := s.nodes[n := x.(asyncTodo := x.asyncTodo + [c])], calls := s.calls[c := Call(n, Waiting)])
    else
      var l := ProcTodo(x.proc);
      s.(nodes := s.nodes[n := x.(hasAsync := true)], calls := s.calls[c := Call(n, Queued(l))], lists := s.lists[l := s.lists[l] + [c]])
  }

  function SentLog(s: Office, h: History, n: NodeId, c: CallId): History
    requires n in s.nodes && n in h
  {
    h[n := h[n].(sent := h[n].sent + [c], current := if s.nodes[n].hasAsync then h[n].current else Some(c))]
  }

  lemma SendKeeps(s: Office, h: History, n: NodeId, c: CallId)
    requires Inv(s, h) && n in s.nodes && NodeAt(s, h, n) && c !in s.calls
    ensures Inv(Sent(s, n, c), SentLog(s, h, n, c))
  {
    var s', h' := Sent(s, n, c), SentLog(s, h, n, c);
    OwnCalls(s, h);
    if s.nodes[n].hasAsync {
      SameLists(s, s');
      assert Pending(s', h'[n]) == Pending(s, h[n]);
    } else {
      JoinList(s, s', c, ProcTodo(s.nodes[n].proc));
    }
    forall x | x in s'.calls && s'.calls[x].node == n
      ensures CallAt(s', h', x)
    {
      if x != c {
        assert CallAt(s, h, x);
      }
    }
    assert NodeAt(s', h', n);
    OnlyAtKeeps(s, h, s', h', n);
  }

  // --- receiving -----------------------------------------------------------

  /** The first call of list `l` leaves it: for good, or into the receiver's hands. */
  function Taken(s: Office, l: ListId, place: Place): Office
    requires l in s.lists && s.lists[l] != [] && s.lists[l][0] in s.calls
  {
    var c := s.lists[l][0];
    s.(calls := s.calls[c := s.calls[c].(place := place)], lists := s.lists[l := s.lists[l][1..]])
  }

  function TakenLog(s: Office, h: History, c: CallId, place: Place): History
    requires c in s.calls && s.calls[c].node in h
  {
    var n := s.calls[c].node;
    if place == Delivered then h[n := h[n].(received := h[n].received + [c])] else h
  }

  /** The head of a list is the call in flight of its node. */
  lemma HeadInFlight(s: Office, h: History, l: ListId)
    requires Inv(s, h) && l in s.lists && s.lists[l] != []
    ensures var c := s.lists[l][0];
            && c in s.calls && s.calls[c].place == Queued(l) && s.calls[c].node in s.nodes && s.calls[c].node in h
            && h[s.calls[c].node].current == Some(c)
  {
    assert ListAt(s, l);
    assert CallAt(s, h, s.lists[l][0]);
  }

  lemma TakeKeeps(s: Office, h: History, l: ListId, place: Place)
    requires Inv(s, h) && l in s.lists && s.lists[l] != [] && s.lists[l][0] in s.calls && s.calls[s.lists[l][0]].node in h
    requires place == Delivered || place == Dropped
    ensures Inv(Taken(s, l, place), TakenLog(s, h, s.lists[l][0], place))
  {
    HeadInFlight(s, h, l);
    var c := s.lists[l][0];
    var n := s.calls[c].node;
    var s', h' := Taken(s, l, place), TakenLog(s, h, c, place);
    LeaveList(s, s', l);
    assert NodeAt(s, h, n);
    assert Pending(s, h[n]) == [c];
    assert NodeAt(s', h', n);
    forall x | x in s'.calls && s'.calls[x].node == n
      ensures CallAt(s', h', x)
    {
      assert CallAt(s, h, x);
    }
    forall x | x in s.calls && s.calls[x].node != n && s.calls[x].place.Queued?
      ensures s.calls[x].place.list in s.lists && x in s'.lists[s.calls[x].place.list]
    {
      assert CallAt(s, h, x);
    }
    OnlyAtKeeps(s, h, s', h', n);
  }

  // --- finishing -----------------------------------------------------------

  /** The buffer of call `c` is freed; the next call that waits becomes work of the freeing thread. */
  function Finished(s: Office, c: CallId, l: ListId): Office
    requires c in s.calls && s.calls[c].node in s.nodes && l in s.lists
    requires s.nodes[s.calls[c].node].asyncTodo != [] ==> s.nodes[s.calls[c].node].asyncTodo[0] in s.calls
  {
    var n := s.calls[c].node;
    var x := s.nodes[n];
    if x.asyncTodo == [] then
      s.(nodes := s.nodes[n := x.(hasAsync := false)], calls := s.calls - {c})
    else
      var d := x.asyncTodo[0];
      s.(nodes := s.nodes[n := x.(asyncTodo := x.asyncTodo[1..])],
         calls := s.calls[d := s.calls[d].(place := Queued(l))] - {c},
         lists := s.lists[l := s.lists[l] + [d]])
  }

  function FinishedLog(s: Office, h: History, n: NodeId): History
    requires n in s.nodes && n in h
  {
    h[n := h[n].(current := if s.nodes[n].asyncTodo == [] then None else Some(s.nodes[n].asyncTodo[0]))]
  }

  lemma FinishLast(s: Office, h: History, c: CallId, l: ListId)
    requires Inv(s, h) && c in s.calls && s.calls[c].place == Delivered && CallAt(s, h, c) && NodeAt(s, h, s.calls[c].node)
    requires l in s.lists && s.nodes[s.calls[c].node].asyncTodo == []
    ensures Inv(Finished(s, c, l), FinishedLog(s, h, s.calls[c].node))
  {
    var n := s.calls[c].node;
    var s', h' := Finished(s, c, l), FinishedLog(s, h, n);
    OwnCalls(s, h);
    SameLists(s, s');
    assert NodeAt(s', h', n);
    forall y | y in s.calls && s.calls[y].node == n
      ensures y == c
    {
      assert CallAt(s, h, y);
    }
    OnlyAtKeeps(s, h, s', h', n);
  }

  lemma FinishNext(s: Office, h: History, c: CallId, l: ListId)
    requires Inv(s, h) && c in s.calls && s.calls[c].place == Delivered && CallAt(s, h, c) && NodeAt(s, h, s.calls[c].node)
    requires l in s.lists && l.proc == s.nodes[s.calls[c].node].proc && s.nodes[s.calls[c].node].asyncTodo != []
    ensures Inv(Finished(s, c, l), FinishedLog(s, h, s.calls[c].node))
  {
    var n := s.calls[c].node;
    var x := s.nodes[n];
    var d := x.asyncTodo[0];
    var s', h' := Finished(s, c, l), FinishedLog(s, h, n);
    OwnCalls(s, h);
    JoinList(s, s', d, l);
    assert NodeAt(s', h', n) by {
      assert Pending(s, h[n]) == [] && Pending(s', h'[n]) == [d];
      assert x.asyncTodo == [d] + x.asyncTodo[1..];
    }
    forall y | y in s'.calls && s'.calls[y].node == n
      ensures CallAt(s', h', y)
    {
      assert CallAt(s, h, y);
      assert y in x.asyncTodo && y != d ==> y in x.asyncTodo[1..];
    }
    OnlyAtKeeps(s, h, s', h', n);
  }

  lemma FinishKeeps(s: Office, h: History, c: CallId, l: ListId)
    requires Inv(s, h) && c in s.calls && s.calls[c].place == Delivered && CallAt(s, h, c) && NodeAt(s, h, s.calls[c].node)
    requires l in s.lists && l.proc == s.nodes[s.calls[c].node].proc
    ensures Inv(Finished(s, c, l), FinishedLog(s, h, s.calls[c].node))
  {
    if s.nodes[s.calls[c].node].asyncTodo == [] {
      FinishLast(s, h, c, l);
    } else {
      FinishNext(s, h, c, l);
    }
  }

  // --- exits ---------------------------------------------------------------

  lemma DropThread(s: Office, h: History, l: ListId)
    requires Inv(s, h) && l in s.lists && s.lists[l] == [] && l.ThreadTodo?
    ensures Inv(s.(lists := s.lists - {l}), h)
  {
    var s' := s.(lists := s.lists - {l});
    forall n | n in s'.nodes
      ensures NodeAt(s', h, n)
    {
      assert NodeAt(s, h, n);
      assert Pending(s', h[n]) == Pending(s, h[n]);
    }
    forall c | c in s'.calls
      ensures CallAt(s', h, c)
    {
      assert CallAt(s, h, c);
    }
    forall m | m in s'.lists
      ensures ListAt(s', m)
    {
      assert ListAt(s, m);
    }
  }

  /** A process without threads is gone, with its nodes, their calls and its list. */
  function Exited(s: Office, p: ProcId): Office {
    Office(map n | n in s.nodes && s.nodes[n].proc != p :: s.nodes[n],
           map c | c in s.calls && s.calls[c].node in s.nodes && s.nodes[s.calls[c].node].proc != p :: s.calls[c],
           s.lists - {ProcTodo(p)})
  }

  lemma ExitKeeps(s: Office, h: History, p: ProcId)
    requires Inv(s, h) && forall l :: l in s.lists && l.ThreadTodo? ==> l.proc != p
    ensures Inv(Exited(s, p), h)
  {
    var s' := Exited(s, p);
    forall n | n in s'.nodes
      ensures NodeAt(s', h, n)
    {
      assert NodeAt(s, h, n);
      assert Pending(s', h[n]) == Pending(s, h[n]);
    }
    forall c | c in s'.calls
      ensures CallAt(s', h, c)
    {
      assert CallAt(s, h, c);
    }
    forall m | m in s'.lists
      ensures ListAt(s', m)
    {
      assert ListAt(s, m);
      forall i | 0 <= i < |s'.lists[m]|
        ensures s'.lists[m][i] in s'.calls
      {
        assert CallAt(s, h, s.lists[m][i]);
      }
    }
  }

  lemma GrowKeeps(s: Office, h: History, s': Office, h': History)
    requires Inv(s, h) && s'.calls == s.calls
    requires forall l :: l in s.lists ==> l in s'.lists && s'.lists[l] == s.lists[l]
    requires forall l :: l in s'.lists && l !in s.lists ==> s'.lists[l] == []
    requires forall l :: l in s'.lists ==> ProcTodo(l.proc) in s'.lists
    requires forall n :: n in s.nodes ==> n in s'.nodes && s'.nodes[n] == s.nodes[n] && n in h && n in h' && h'[n] == h[n]
    requires forall n :: n in s'.nodes && n !in s.nodes ==>
               !s'.nodes[n].hasAsync && s'.nodes[n].asyncTodo == [] && ProcTodo(s'.nodes[n].proc) in s'.lists && n in h' && h'[n] == Log([], [], None)
    ensures Inv(s', h')
  {
    forall n | n in s'.nodes
      ensures NodeAt(s', h', n)
    {
      if n in s.nodes {
        assert NodeAt(s, h, n);
        assert Pending(s', h'[n]) == Pending(s, h[n]);
      }
    }
    forall c | c in s'.calls
      ensures CallAt(s', h', c)
    {
      assert CallAt(s, h, c);
    }
    forall m | m in s'.lists
      ensures ListAt(s', m)
    {
      if m in s.lists {
        assert ListAt(s, m);
      }
    }
  }

  lemma Known(s: Office, h: History)
    requires Inv(s, h)
    ensures forall n :: n in s.nodes ==> n in h && ProcTodo(s.nodes[n].proc) in s.lists
  {
    forall n | n in s.nodes
      ensures n in h && ProcTodo(s.nodes[n].proc) in s.lists
    {
      assert NodeAt(s, h, n);
    }
  }

  class OneWay {
    var office: Office
    /** The name of the next call. */
    var next: CallId
    ghost var history: History

    ghost predicate Valid()
      reads this
    {
      && Inv(office, history)
      && (forall c :: c in office.calls ==> c < next)
    }

    constructor ()
      ensures Valid() && office == Office(map[], map[], map[]) && history == map[] && next == 0
    {
      office, next, history := Office(map[], map[], map[]), 0, map[];
    }

    /** The end of `binder_transaction` for a one-way call that has been accepted. */
    method Send(n: NodeId) returns (c: CallId)
      requires Valid() && n in office.nodes
      modifies this
      ensures Valid() && n in old(history) && c !in old(office).calls && c == old(next) && next == c + 1
      ensures ProcTodo(old(office).nodes[n].proc) in old(office).lists && office == Sent(old(office), n, c)
      ensures history == SentLog(old(office), old(history), n, c)
      // At the end of the node's own list, or of its owner's.
      ensures var (x, l) := (old(office).nodes[n], ProcTodo(old(office).nodes[n].proc));
              office == if x.hasAsync
                        then Office(old(office).nodes[n := Node(x.proc, true, x.asyncTodo + [c])], old(office).calls[c := Call(n, Waiting)], old(office).lists)
                        else Office(old(office).nodes[n := Node(x.proc, true, x.asyncTodo)], old(office).calls[c := Call(n, Queued(l))],
                                    old(office).lists[l := old(office).lists[l] + [c]])
      ensures history == old(history)[n := history[n]] && history[n].sent == old(history)[n].sent + [c] && history[n].received == old(history)[n].received
    {
      c := next;
      next := next + 1;
      assert NodeAt(office, history, n);
      SendKeeps(office, history, n, c);
      history := SentLog(office, history, n, c);
      office := Sent(office, n, c);
    }

    /** Thread `t` of `p` takes the first one-way call of its own list or, when it waits for any work, of its process. */
    method Receive(p: ProcId, t: ThreadId, forProcess: bool) returns (c: Option<CallId>)
      requires Valid() && ThreadTodo(p, t) in office.lists
      modifies this`office, this`history
      ensures Valid()
      ensures c.None? <==> old(office).lists[ThreadTodo(p, t)] == [] && (!forProcess || old(office).lists[ProcTodo(p)] == [])
      ensures c.None? ==> office == old(office) && history == old(history)
      ensures c.Some? ==>
                var l := if old(office).lists[ThreadTodo(p, t)] != [] then ThreadTodo(p, t) else ProcTodo(p);
                && old(office).lists[l] != [] && c.value == old(office).lists[l][0] && c.value in old(office).calls
                && old(office).calls[c.value].place == Queued(l)
                && old(office).calls[c.value].node in old(history) && old(history)[old(office).calls[c.value].node].current == c
                && office == Taken(old(office), l, Delivered) && history == TakenLog(old(office), old(history), c.value, Delivered)
                && var n := old(office).calls[c.value].node;
                && office == Office(old(office).nodes, old(office).calls[c.value := Call(n, Delivered)], old(office).lists[l := old(office).lists[l][1..]])
                && history == old(history)[n := old(history)[n].(received := old(history)[n].received + [c.value])]
    {
      var l := if office.lists[ThreadTodo(p, t)] != [] then ThreadTodo(p, t) else ProcTodo(p);
      if office.lists[l] == [] || (l == ProcTodo(p) && !forProcess) {
        return None;
      }
      HeadInFlight(office, history, l);
      TakeKeeps(office, history, l, Delivered);
      c := Some(office.lists[l][0]);
      history := TakenLog(office, history, office.lists[l][0], Delivered);
      office := Taken(office, l, Delivered);
    }

    /** `BC_FREE_BUFFER` by thread `t` of `p` for the buffer of a one-way call. */
    method FreeBuffer(p: ProcId, t: ThreadId, c: CallId) returns (o: Freed)
      requires Valid() && ThreadTodo(p, t) in office.lists
      modifies this`office, this`history
      ensures Valid()
      ensures c in old(office).calls ==> old(office).calls[c].node in old(office).nodes
      ensures o == NoMatch <==> c !in old(office).calls || old(office).nodes[old(office).calls[c].node].proc != p
      ensures o == Done <==> o != NoMatch && old(office).calls[c].place == Delivered
      ensures o != Done ==> office == old(office) && history == old(history)
      // The node is marked as serving a call, and this is the call.
      ensures o == Done ==>
                var n := old(office).calls[c].node;
                && old(office).nodes[n].hasAsync && n in old(history) && old(history)[n].current == Some(c)
                && (old(office).nodes[n].asyncTodo != [] ==>
                      var d := old(office).nodes[n].asyncTodo[0];
                      d in old(office).calls && old(office).calls[d] == Call(n, Waiting))
                && office == Finished(old(office), c, ThreadTodo(p, t)) && history == FinishedLog(old(office), old(history), n)
      // The next call goes to the end of the freeing thread's list.
      ensures o == Done ==>
                var (n, l) := (old(office).calls[c].node, ThreadTodo(p, t));
                var x := old(office).nodes[n];
                office == if x.asyncTodo == [] then Office(old(office).nodes[n := Node(p, false, [])], old(office).calls - {c}, old(office).lists)
                          else Office(old(office).nodes[n := Node(p, true, x.asyncTodo[1..])],
                                      old(office).calls[x.asyncTodo[0] := Call(n, Queued(l))] - {c},
                                      old(office).lists[l := old(office).lists[l] + [x.asyncTodo[0]]])
    {
      if c !in office.calls {
        return NoMatch;
      }
      var n := office.calls[c].node;
      assert CallAt(office, history, c);
      assert NodeAt(office, history, n);
      if office.nodes[n].proc != p {
        return NoMatch;
      }
      if office.calls[c].place != Delivered {
        return Unreturned;
      }
      FinishKeeps(office, history, c, ThreadTodo(p, t));
      history := FinishedLog(office, history, n);
      office := Finished(office, c, ThreadTodo(p, t));
      o := Done;
    }

    /** A thread exits, and the calls in its list are lost: their buffers are never returned to the user. */
    method FreeThread(p: ProcId, t: ThreadId)
      requires Valid() && ThreadTodo(p, t) in office.lists
      modifies this`office
      ensures Valid() && office.nodes == old(office).nodes
      ensures office.lists == old(office).lists - {ThreadTodo(p, t)}
      ensures office.calls.Keys == old(office).calls.Keys
      ensures forall c :: c in office.calls ==>
                office.calls[c] == if old(office).calls[c].place == Queued(ThreadTodo(p, t))
                                   then old(office).calls[c].(place := Dropped) else old(office).calls[c]
    {
      var l := ThreadTodo(p, t);
      while office.lists[l] != []
        invariant Valid() && history == old(history) && office.nodes == old(office).nodes
        invariant l in office.lists && office.lists == old(office).lists[l := office.lists[l]]
        invariant office.calls.Keys == old(office).calls.Keys
        invariant forall c :: c in office.calls && office.calls[c] != old(office).calls[c] ==>
                    office.calls[c] == old(office).calls[c].(place := Dropped) && old(office).calls[c].place == Queued(l)
        decreases |office.lists[l]|
      {
        HeadInFlight(office, history, l);
        TakeKeeps(office, history, l, Dropped);
        office := Taken(office, l, Dropped);
      }
      forall c | c in office.calls && old(office).calls[c].place == Queued(l)
        ensures office.calls[c] == old(office).calls[c].(place := Dropped)
      {
        assert CallAt(office, history, c);
      }
      DropThread(office, history, l);
      office := office.(lists := office.lists - {l});
    }

    method Exit(p: ProcId)
      requires Valid() && ProcTodo(p) in office.lists
      modifies this`office
      ensures Valid()
      ensures forall n :: n in office.nodes <==> n in old(office).nodes && old(office).nodes[n].proc != p
      ensures forall n :: n in office.nodes ==> office.nodes[n] == old(office).nodes[n]
      ensures forall l :: l in office.lists <==> l in old(office).lists && l.proc != p
      ensures forall l :: l in office.lists ==> office.lists[l] == old(office).lists[l]
      ensures forall c :: c in office.calls <==> c in old(office).calls && old(office).calls[c].node in office.nodes
      ensures forall c :: c in office.calls ==> office.calls[c] == old(office).calls[c]
    {
      var ls: set<ListId> := set l | l in office.lists && l.ThreadTodo? && l.proc == p;
      OwnCalls(office, history);
      while ls != {}
        invariant office.calls.Keys == old(office).calls.Keys
        invariant forall c :: c in office.calls ==> office.calls[c].node == old(office).calls[c].node && office.calls[c].node in office.nodes
        invariant forall c :: c in office.calls && office.nodes[office.calls[c].node].proc != p ==> office.calls[c] == old(office).calls[c]
        invariant Valid() && history == old(history) && office.nodes == old(office).nodes
        invariant forall l :: l in ls ==> l in office.lists && l.ThreadTodo? && l.proc == p
        invariant forall l :: l in office.lists <==> l in old(office).lists && (l.ThreadTodo? && l.proc == p ==> l in ls)
        invariant forall l :: l in office.lists ==> office.lists[l] == old(office).lists[l]
        decreases |ls|
      {
        var l :| l in ls;
        ls := ls - {l};
        FreeThread(l.proc, l.thread);
      }
      ExitKeeps(office, history, p);
      office := Exited(office, p);
    }

    method OpenProc(p: ProcId)
      requires Valid() && ProcTodo(p) !in office.lists
      modifies this`office
      ensures Valid() && office == old(office).(lists := old(office).lists[ProcTodo(p) := []])
    {
      Known(office, history);
      GrowKeeps(office, history, office.(lists := office.lists[ProcTodo(p) := []]), history);
      office := office.(lists := office.lists[ProcTodo(p) := []]);
    }

    method NewThread(p: ProcId, t: ThreadId)
      requires Valid() && ProcTodo(p) in office.lists && ThreadTodo(p, t) !in office.lists
      modifies this`office
      ensures Valid() && office == old(office).(lists := old(office).lists[ThreadTodo(p, t) := []])
    {
      Known(office, history);
      GrowKeeps(office, history, office.(lists := office.lists[ThreadTodo(p, t) := []]), history);
      office := office.(lists := office.lists[ThreadTodo(p, t) := []]);
    }

    method NewNode(p: ProcId, n: NodeId)
      requires Valid() && ProcTodo(p) in office.lists && n !in office.nodes
      modifies this`office, this`history
      ensures Valid() && history == old(history)[n := Log([], [], None)]
      ensures office == old(office).(nodes := old(office).nodes[n := Node(p, false, [])])
    {
      Known(office, history);
      history := history[n := Log([], [], None)];
      GrowKeeps(office, old(history), office.(nodes := office.nodes[n := Node(p, false, [])]), history);
      office := office.(nodes := office.nodes[n := Node(p, false, [])]);
    }
  }
}
