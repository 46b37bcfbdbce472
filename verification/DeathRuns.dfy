/** Whole runs of death notices, and what their invariant says in the user's terms. */
module DeathRuns {

  import opened Wrappers
  import opened DeathTable
  import opened DeathDriver

  datatype Event =
    | OpenProc(p: ProcId)
    | NewThread(p: ProcId, t: ThreadId)
    | NewNode(p: ProcId, n: NodeId)
    | NewRef(p: ProcId, n: NodeId, r: RefId)
    | DropRef(r: RefId)
    | Request(p: ProcId, t: ThreadId, looper: bool, r: RefId, cookie: nat, memory: bool)
    | Clear(p: ProcId, t: ThreadId, looper: bool, r: RefId, cookie: nat)
    | Done(p: ProcId, t: ThreadId, looper: bool, cookie: nat)
    | Read(p: ProcId, t: ThreadId, forProcess: bool)
    | ThreadExit(p: ProcId, t: ThreadId)
    | ProcExit(p: ProcId)

  /**
   What a step does to the history.  A record is freed exactly when it goes, and
   none that ever was comes back; only a read tells of a death, once and of an
   owner that is gone; only a request enters a record.
   */
  ghost predicate Recorded(s: Table, h: History, s': Table, h': History, e: Event) {
    && h'.freed == h.freed + (s.deaths.Keys - s'.deaths.Keys) && h.told <= h'.told
    && (forall d :: d in h'.told && d !in h.told ==> e.Read? && d in s.deaths && d in h.about && !Alive(s', h.about[d]))
    && (forall d :: d in s'.deaths && d !in s.deaths ==> e.Request? && d !in h.asker && d !in h.freed && d !in h.told)
    && (forall d :: d in h.asker ==> d in h'.asker && h'.asker[d] == h.asker[d])
    && (forall d :: d in h.about ==> d in h'.about && h'.about[d] == h.about[d])
    && h'.asker.Keys == h.asker.Keys + (s'.deaths.Keys - s.deaths.Keys)
  }

  lemma FreedRecorded(s: Table, h: History, s': Table, h': History, e: Event)
    requires FreesGone(s, h, s', h')
    ensures Recorded(s, h, s', h', e)
  {
    assert s'.deaths.Keys - s.deaths.Keys == {};
  }

  method Step(m: Deaths, e: Event)
    requires m.Valid()
    modifies m
    ensures m.Valid() && Recorded(old(m.table), old(m.history), m.table, m.history, e)
  {
    if e.Request? || e.Clear? || e.Done? || e.Read? {
      Ask(m, e);
    } else {
      if e.DropRef? || e.ThreadExit? || e.ProcExit? {
        Leave(m, e);
      } else {
        Begin(m, e);
      }
      FreedRecorded(old(m.table), old(m.history), m.table, m.history, e);
    }
  }

  /** References, threads and processes go. */
  method Leave(m: Deaths, e: Event)
    requires m.Valid() && (e.DropRef? || e.ThreadExit? || e.ProcExit?)
    modifies m`table, m`history
    ensures m.Valid() && FreesGone(old(m.table), old(m.history), m.table, m.history)
  {
    match e
    case DropRef(r) =>
      if r in m.table.refs {
        m.DeleteRef(r);
      }
    case ThreadExit(p, t) =>
      if ThreadTodo(p, t) in m.table.lists {
        m.FreeThread(p, t);
      }
    case ProcExit(p) =>
      if ProcTodo(p) in m.table.lists {
        m.Exit(p);
      }
  }

  /** Processes, threads, nodes and references come into being. */
  method Begin(m: Deaths, e: Event)
    requires m.Valid() && (e.OpenProc? || e.NewThread? || e.NewNode? || e.NewRef?)
    modifies m`table
    ensures m.Valid() && m.table.deaths == old(m.table).deaths
  {
    match e
    case OpenProc(p) =>
      if forall l :: l in m.table.lists ==> l.proc != p {
        m.OpenProc(p);
      }
    case NewThread(p, t) =>
      if ProcTodo(p) in m.table.lists && ThreadTodo(p, t) !in m.table.lists {
        m.NewThread(p, t);
      }
    case NewNode(p, n) =>
      if ProcTodo(p) in m.table.lists && n !in m.table.owner {
        m.NewNode(p, n);
      }
    case NewRef(p, n, r) =>
      if ProcTodo(p) in m.table.lists && n in m.table.owner && r !in m.table.refs {
        m.NewRef(p, n, r);
      }
  }

  /** The commands of a thread. */
  method Ask(m: Deaths, e: Event)
    requires m.Valid() && (e.Request? || e.Clear? || e.Done? || e.Read?)
    modifies m
    ensures m.Valid() && Recorded(old(m.table), old(m.history), m.table, m.history, e)
  {
    if ThreadTodo(e.p, e.t) !in m.table.lists {
      return;
    }
    match e
    case Request(p, t, looper, r, cookie, memory) =>
      var _ := m.Request(p, t, looper, r, cookie, memory);
    case Clear(p, t, looper, r, cookie) =>
      var _ := m.Clear(p, t, looper, r, cookie);
    case Done(p, t, looper, cookie) =>
      var _ := m.Done(p, t, looper, cookie);
    case Read(p, t, forProcess) =>
      var _, _ := m.Read(p, t, forProcess);
  }

  /**
   Every run keeps the invariant; within it every unlink, queueing and release above
   has its precondition.  Every record that was ever asked for is there or has been
   freed, and not both.
   */
  method Run(events: seq<Event>) returns (m: Deaths)
    ensures fresh(m) && m.Valid()
    ensures m.history.asker.Keys == m.table.deaths.Keys + m.history.freed && m.table.deaths.Keys !! m.history.freed
  {
    m := new Deaths();
    for k := 0 to |events|
      invariant fresh(m) && m.Valid() && m.history.asker.Keys == m.table.deaths.Keys + m.history.freed
    {
      Step(m, events[k]);
    }
    AllAsked(m.table, m.history);
  }

  /** A record on a reference to a living node is in no list; once in a list it can only be news of a death. */
  lemma AttachedRecords(s: Table, h: History, r: RefId, d: DeathId)
    requires Inv(s, h) && r in s.refs && s.refs[r].death == Some(d)
    ensures d in s.deaths
    ensures Alive(s, s.refs[r].node) ==> s.deaths[d].place.None?
    ensures s.deaths[d].place.Some? ==> s.deaths[d].kind == DeadBinder
    ensures forall q :: q in s.refs && s.refs[q].death == Some(d) ==> q == r
  {
    assert RefAt(s, h, r);
    assert DeathAt(s, h, d);
    Deaths.AskedOnce(s, h, d);
  }

  /** A record that no reference holds is in exactly one list, once, and has not been freed. */
  lemma DetachedRecords(s: Table, h: History, d: DeathId)
    requires Inv(s, h) && d in s.deaths && forall r :: r in s.refs ==> s.refs[r].death != Some(d)
    ensures s.deaths[d].kind == DeadBinderAndClear || s.deaths[d].kind == ClearDone
    ensures d !in h.freed
    ensures exists l :: l in s.lists && d in s.lists[l]
    ensures forall l, m, i, j ::
              (l in s.lists && m in s.lists && 0 <= i < |s.lists[l]| && 0 <= j < |s.lists[m]| && s.lists[l][i] == d && s.lists[m][j] == d)
              ==> l == m && i == j
  {
    assert DeathAt(s, h, d);
    assert PlaceAt(s.deaths, s.lists, d);
    forall l, m, i, j | l in s.lists && m in s.lists && 0 <= i < |s.lists[l]| && 0 <= j < |s.lists[m]|
                        && s.lists[l][i] == d && s.lists[m][j] == d
      ensures l == m && i == j
    {
      assert ListAt(s.deaths, s.lists, l) && ListAt(s.deaths, s.lists, m);
    }
  }

  /** Nothing refers to a record that has been freed. */
  lemma FreedIsGone(s: Table, h: History, d: DeathId)
    requires Inv(s, h) && d in h.freed
    ensures d !in s.deaths
    ensures forall r :: r in s.refs ==> s.refs[r].death != Some(d)
    ensures forall l :: l in s.lists ==> d !in s.lists[l]
  {
    AllAsked(s, h);
    forall r | r in s.refs
      ensures s.refs[r].death != Some(d)
    {
      assert RefAt(s, h, r);
    }
    forall l | l in s.lists
      ensures d !in s.lists[l]
    {
      assert ListAt(s.deaths, s.lists, l);
    }
  }
}
