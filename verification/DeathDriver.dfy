/** The commands and events that make, move and free the records of death notices. */
module DeathDriver {

  import opened Wrappers
  import opened Sequences
  import opened DeathTable

  /** What a command answers; the last two are the user's errors that the driver only logs. */
  datatype Outcome = Accepted | NoMemory | NoSuchRef | Refused

  /** What a thread reads. */
  datatype Notice = BrDeadBinder(cookie: nat) | BrClearDone(cookie: nat)

  class Deaths {
    var table: Table
    /** The name the next record gets. */
    var next: DeathId
    ghost var history: History

    ghost predicate Valid()
      reads this
    {
      && Inv(table, history)
      && (forall d :: d in history.asker || d in history.about || d in history.freed || d in history.told ==> d < next)
    }

    constructor ()
      ensures Valid() && table == Table(map[], map[], map[], map[]) && history == History(map[], map[], {}, {})
    {
      table, next, history := Table(map[], map[], map[], map[]), 0, History(map[], map[], {}, {});
    }

    /** A work list of the calling thread: its own when it serves calls, otherwise its process's. */
    function Todo(p: ProcId, t: ThreadId, looper: bool): ListId
    {
      if looper then ThreadTodo(p, t) else ProcTodo(p)
    }

    // --- the steps that change one record -------------------------------------

    method Enqueue(d: DeathId, kind: Kind, l: ListId)
      requires d in table.deaths && l in table.lists && table.deaths[d].place.None? && Linked(table.deaths, table.lists)
      modifies this`table
      ensures table == Queued(old(table), d, kind, l) && Linked(table.deaths, table.lists)
    {
      QueueKeeps(table, d, kind, l);
      table := Queued(table, d, kind, l);
    }

    method Unlink(d: DeathId)
      requires d in table.deaths && Linked(table.deaths, table.lists)
      modifies this`table
      ensures old(PlaceAt(table.deaths, table.lists, d)) && table == Unlinked(old(table), d)
      ensures Linked(table.deaths, table.lists) && table.deaths[d].place.None?
    {
      assert PlaceAt(table.deaths, table.lists, d);
      UnlinkKeeps(table, d);
      table := Unlinked(table, d);
    }

    /** `kfree`: the record exists, and is in no list. */
    method Free(d: DeathId)
      requires d in table.deaths && Linked(table.deaths, table.lists) && table.deaths[d].place.None? && d !in history.freed
      modifies this`table, this`history
      ensures table == old(table).(deaths := old(table).deaths - {d}) && Linked(table.deaths, table.lists)
      ensures history == old(history).(freed := old(history).freed + {d})
    {
      LooseKeeps(table.deaths, table.deaths - {d}, table.lists);
      table := table.(deaths := table.deaths - {d});
      history := history.(freed := history.freed + {d});
    }

    // --- commands --------------------------------------------------------------

    /** `BC_REQUEST_DEATH_NOTIFICATION` by thread `t` of process `p`, for its reference `r`. */
    method Request(p: ProcId, t: ThreadId, looper: bool, r: RefId, cookie: nat, memory: bool) returns (o: Outcome)
      requires Valid() && ThreadTodo(p, t) in table.lists
      modifies this
      ensures Valid()
      ensures o == NoSuchRef <==> r !in old(table).refs || old(table).refs[r].proc != p
      ensures o == Refused <==> r in old(table).refs && old(table).refs[r].proc == p && old(table).refs[r].death.Some?
      ensures o == NoMemory <==> r in old(table).refs && old(table).refs[r].proc == p && old(table).refs[r].death.None? && !memory
      ensures o == Accepted ==>
                var (d, n, l) := (old(next), old(table).refs[r].node, if looper then ThreadTodo(p, t) else ProcTodo(p));
                && d !in old(table).deaths && d !in old(history).asker && d !in old(history).about && d !in old(history).told && d !in old(history).freed
                && n in old(table).owner && l in old(table).lists && table.owner == old(table).owner
                && table.refs == old(table).refs[r := Ref(p, n, Some(d))]
                && table.deaths == old(table).deaths[d := if Alive(table, n) then Death(cookie, Unset, None) else Death(cookie, DeadBinder, Some(l))]
                && table.lists == (if Alive(table, n) then old(table).lists else old(table).lists[l := old(table).lists[l] + [d]])
                && history == old(history).(asker := old(history).asker[d := r], about := old(history).about[d := n])
      ensures o != Accepted ==> table == old(table) && history == old(history)
    {
      if r !in table.refs || table.refs[r].proc != p {
        return NoSuchRef;
      }
      if table.refs[r].death.Some? {
        return Refused;
      }
      if !memory {
        return NoMemory;
      }
      var d := Attach(r, cookie);
      if table.owner[table.refs[r].node].None? {
        Announce(d, Todo(p, t, looper));
      }
      o := Accepted;
    }

    method Attach(r: RefId, cookie: nat) returns (d: DeathId)
      requires Valid() && r in table.refs && table.refs[r].death.None?
      modifies this
      ensures Valid() && d == old(next) && d !in old(table).deaths && d !in old(history).asker && d !in old(history).about && d !in old(history).told && d !in old(history).freed
      ensures table == old(table).(deaths := old(table).deaths[d := Death(cookie, Unset, None)],
                                   refs := old(table).refs[r := old(table).refs[r].(death := Some(d))])
      ensures history == old(history).(asker := old(history).asker[d := r], about := old(history).about[d := table.refs[r].node])
      ensures r in table.refs && table.refs[r].node in table.owner && Attached(table, history, d)
    {
      d := next;
      next := next + 1;
      AllAsked(table, history);
      assert RefAt(table, history, r);
      NotYetAsked(table, history, d);
      LooseKeeps(table.deaths, table.deaths[d := Death(cookie, Unset, None)], table.lists);
      table := table.(deaths := table.deaths[d := Death(cookie, Unset, None)],
                      refs := table.refs[r := table.refs[r].(death := Some(d))]);
      history := history.(asker := history.asker[d := r], about := history.about[d := table.refs[r].node]);
      OnlyAtKeeps(old(table), old(history), table, history, d, r);
    }

    /** The owner of the node has died: the record, in no list so far, becomes work. */
    method Announce(d: DeathId, l: ListId)
      requires Valid() && Attached(table, history, d) && d in table.deaths && table.deaths[d].kind == Unset
      requires !Alive(table, table.refs[history.asker[d]].node)
      requires l in table.lists && !l.Delivered? && l.proc == table.refs[history.asker[d]].proc
      modifies this`table
      ensures Valid() && old(table).deaths[d].place.None? && table == Queued(old(table), d, DeadBinder, l)
    {
      ghost var r := history.asker[d];
      assert RefAt(table, history, r) && DeathAt(table, history, d);
      AskedOnce(table, history, d);
      Enqueue(d, DeadBinder, l);
      OnlyAtKeeps(old(table), history, table, history, d, r);
    }

    /** A record that has left its reference is taken from its list and freed. */
    method Discard(d: DeathId)
      requires Valid() && d in table.deaths && !Attached(table, history, d)
      modifies this`table, this`history
      ensures Valid() && old(PlaceAt(table.deaths, table.lists, d)) && old(table).deaths[d].place.Some?
      ensures table == Unlinked(old(table), d).(deaths := old(table).deaths - {d})
      ensures history == old(history).(freed := old(history).freed + {d})
    {
      AllAsked(table, history);
      AskedOnce(table, history, d);
      assert DeathAt(table, history, d);
      Unlink(d);
      Free(d);
      ghost var r := history.asker[d];
      if r in table.refs {
        assert RefAt(old(table), old(history), r);
      }
      OnlyAtKeeps(old(table), old(history), table, history, d, r);
    }

    /** The news of a death goes to the user, and waits for its answer. */
    method Tell(d: DeathId, p: ProcId)
      requires Valid() && d in table.deaths && table.deaths[d].place.Some? && !table.deaths[d].place.value.Delivered?
      requires table.deaths[d].kind != ClearDone && table.deaths[d].place.value.proc == p && Delivered(p) in table.lists
      modifies this`table, this`history
      ensures Valid() && old(PlaceAt(table.deaths, table.lists, d))
      ensures table == Delivery(Unlinked(old(table), d), d, Delivered(p))
      ensures d !in old(history).told && d in history.about && !Alive(table, history.about[d])
      ensures history == old(history).(told := old(history).told + {d})
    {
      AskedOnce(table, history, d);
      assert DeathAt(table, history, d);
      Unlink(d);
      DeliveryKeeps(table, d, Delivered(p));
      table := Delivery(table, d, Delivered(p));
      history := history.(told := history.told + {d});
      ghost var r := history.asker[d];
      if r in table.refs {
        assert RefAt(old(table), old(history), r);
      }
      OnlyAtKeeps(old(table), old(history), table, history, d, r);
    }

    static lemma NotYetAsked(s: Table, h: History, d: DeathId)
      requires Meaning(s, h) && d !in s.deaths
      ensures forall y :: y in s.refs ==> s.refs[y].death != Some(d)
    {
      forall y | y in s.refs
        ensures s.refs[y].death != Some(d)
      {
        assert RefAt(s, h, y);
      }
    }

    static lemma AskedOnce(s: Table, h: History, d: DeathId)
      requires Meaning(s, h) && d in s.deaths
      ensures d in h.asker && forall y :: y in s.refs && s.refs[y].death == Some(d) ==> y == h.asker[d]
    {
      assert DeathAt(s, h, d);
      forall y | y in s.refs && s.refs[y].death == Some(d)
        ensures y == h.asker[d]
      {
        assert RefAt(s, h, y);
      }
    }

    /** `BC_CLEAR_DEATH_NOTIFICATION`: the record leaves the reference, and is or becomes queued. */
    method Clear(p: ProcId, t: ThreadId, looper: bool, r: RefId, cookie: nat) returns (o: Outcome)
      requires Valid() && ThreadTodo(p, t) in table.lists
      modifies this`table
      ensures Valid()
      ensures o == NoSuchRef <==> r !in old(table).refs || old(table).refs[r].proc != p
      ensures o == NoSuchRef || o == Refused || o == Accepted
      ensures o == Accepted <==>
                r in old(table).refs && old(table).refs[r].proc == p && old(table).refs[r].death.Some?
                && old(table).refs[r].death.value in old(table).deaths
                && old(table).deaths[old(table).refs[r].death.value].cookie == cookie
      ensures o == Accepted ==>
                var (d, l) := (old(table).refs[r].death.value, if looper then ThreadTodo(p, t) else ProcTodo(p));
                && table.refs == old(table).refs[r := old(table).refs[r].(death := None)]
                && d in old(table).deaths && table.owner == old(table).owner && l in old(table).lists
                && table.lists == (if old(table).deaths[d].place.Some? then old(table).lists
                                   else old(table).lists[l := old(table).lists[l] + [d]])
                && if old(table).deaths[d].place.None?
                   then table.deaths == old(table).deaths[d := Death(cookie, ClearDone, Some(l))]
                   else table.deaths == old(table).deaths[d := Death(cookie, DeadBinderAndClear, old(table).deaths[d].place)]
      ensures o != Accepted ==> table == old(table)
    {
      if r !in table.refs || table.refs[r].proc != p {
        return NoSuchRef;
      }
      if table.refs[r].death.None? {
        return Refused;
      }
      var d := table.refs[r].death.value;
      assert RefAt(table, history, r);
      assert DeathAt(table, history, d);
      if table.deaths[d].cookie != cookie {
        return Refused;
      }
      AskedOnce(table, history, d);
      table := table.(refs := table.refs[r := table.refs[r].(death := None)]);
      if table.deaths[d].place.None? {
        Enqueue(d, ClearDone, Todo(p, t, looper));
      } else {
        assert table.deaths[d].kind == DeadBinder;
        LooseKeeps(table.deaths, table.deaths[d := table.deaths[d].(kind := DeadBinderAndClear)], table.lists);
        table := table.(deaths := table.deaths[d := table.deaths[d].(kind := DeadBinderAndClear)]);
      }
      OnlyAtKeeps(old(table), history, table, history, d, r);
      o := Accepted;
    }

    /** `BC_DEAD_BINDER_DONE`: the user has dealt with the news it got under this cookie. */
    method Done(p: ProcId, t: ThreadId, looper: bool, cookie: nat) returns (found: Option<DeathId>)
      requires Valid() && ThreadTodo(p, t) in table.lists
      modifies this`table
      ensures Valid()
      ensures found.None? <==> forall d :: d in old(table).deaths && old(table).deaths[d].place == Some(Delivered(p)) ==>
                                           old(table).deaths[d].cookie != cookie
      ensures found.None? ==> table == old(table)
      ensures found.Some? ==>
                var (d, l) := (found.value, if looper then ThreadTodo(p, t) else ProcTodo(p));
                && d in old(table).deaths && old(table).deaths[d].cookie == cookie && old(table).deaths[d].place == Some(Delivered(p))
                && d in old(table).lists[Delivered(p)] && l in old(table).lists
                && (var lists := old(table).lists[Delivered(p) := Without(old(table).lists[Delivered(p)], d)];
                    table.lists == if Attached(table, history, d) then lists else lists[l := old(table).lists[l] + [d]])
                && table.refs == old(table).refs && table.owner == old(table).owner && d in history.told
                && table.deaths == old(table).deaths[d := if Attached(table, history, d)
                                                          then Death(cookie, DeadBinder, None)
                                                          else Death(cookie, ClearDone, Some(l))]
    {
      var list := table.lists[Delivered(p)];
      assert ListAt(table.deaths, table.lists, Delivered(p));
      var i := 0;
      while i < |list| && table.deaths[list[i]].cookie != cookie
        invariant i <= |list| && forall k :: 0 <= k < i ==> table.deaths[list[k]].cookie != cookie
      {
        i := i + 1;
      }
      if i == |list| {
        forall d | d in table.deaths && table.deaths[d].place == Some(Delivered(p))
          ensures table.deaths[d].cookie != cookie
        {
          assert PlaceAt(table.deaths, table.lists, d);
          assert list[Position(list, d)] == d;
        }
        return None;
      }
      Answer(list[i], Todo(p, t, looper));
      found := Some(list[i]);
    }

    /** A delivered record has been dealt with: it is in no list, or queued for the last time if its reference has let it go. */
    method Answer(d: DeathId, l: ListId)
      requires Valid() && d in table.deaths && table.deaths[d].place.Some? && table.deaths[d].place.value.Delivered?
      requires l in table.lists && !l.Delivered? && l.proc == table.deaths[d].place.value.proc
      modifies this`table
      ensures Valid() && table.refs == old(table).refs && table.owner == old(table).owner && d in history.told
      ensures table.deaths == old(table).deaths[d := if Attached(table, history, d) then Death(old(table).deaths[d].cookie, DeadBinder, None)
                                                     else Death(old(table).deaths[d].cookie, ClearDone, Some(l))]
      ensures var at := old(table).deaths[d].place.value;
              && at in old(table).lists && d in old(table).lists[at]
              && var lists := old(table).lists[at := Without(old(table).lists[at], d)];
                 table.lists == if Attached(table, history, d) then lists else lists[l := old(table).lists[l] + [d]]
    {
      assert DeathAt(table, history, d) && PlaceAt(table.deaths, table.lists, d);
      AskedOnce(table, history, d);
      Unlink(d);
      if table.deaths[d].kind == DeadBinderAndClear {
        Enqueue(d, ClearDone, l);
      }
      ghost var r := history.asker[d];
      if r in table.refs {
        assert RefAt(old(table), history, r);
      }
      OnlyAtKeeps(old(table), history, table, history, d, r);
    }

    /**
     A thread reads the first record of its own list or, when it waits for
     work of its process, of the process's list.  No death is announced while
     the node's owner lives, and none twice.
     */
    method Read(p: ProcId, t: ThreadId, forProcess: bool) returns (notice: Option<Notice>, ghost d: DeathId)
      requires Valid() && ThreadTodo(p, t) in table.lists
      modifies this
      ensures Valid()
      ensures table.refs == old(table).refs && table.owner == old(table).owner && next == old(next)
      ensures notice.None? <==> old(table).lists[ThreadTodo(p, t)] == [] && (!forProcess || old(table).lists[ProcTodo(p)] == [])
      ensures notice.None? ==> table == old(table) && history == old(history)
      ensures notice.Some? ==>
                && d in old(table).deaths && notice.value.cookie == old(table).deaths[d].cookie
                && old(table).deaths[d].place == Some(if old(table).lists[ThreadTodo(p, t)] != [] then ThreadTodo(p, t) else ProcTodo(p))
                && old(table).lists[old(table).deaths[d].place.value][0] == d
                && (notice.value.BrDeadBinder? <==> old(table).deaths[d].kind != ClearDone)
      ensures notice.Some? && notice.value.BrDeadBinder? ==>
                && d in history.about && !Alive(table, history.about[d]) && d !in old(history).told
                && history == old(history).(told := old(history).told + {d})
                && table.deaths == old(table).deaths[d := old(table).deaths[d].(place := Some(Delivered(p)))]
      ensures notice.Some? && notice.value.BrClearDone? ==>
                && !Attached(old(table), old(history), d)
                && history == old(history).(freed := old(history).freed + {d}) && table.deaths == old(table).deaths - {d}
      // The record leaves the head of its list; one that is announced goes to the head of the delivered ones.
      ensures notice.Some? ==>
                var l := if old(table).lists[ThreadTodo(p, t)] != [] then ThreadTodo(p, t) else ProcTodo(p);
                var lists := old(table).lists[l := old(table).lists[l][1..]];
                table.lists == if notice.value.BrClearDone? then lists else lists[Delivered(p) := [d] + old(table).lists[Delivered(p)]]
    {
      var l := if table.lists[ThreadTodo(p, t)] != [] then ThreadTodo(p, t) else ProcTodo(p);
      if table.lists[l] == [] || (l == ProcTodo(p) && !forProcess) {
        d := 0;
        return None, d;
      }
      var x := table.lists[l][0];
      d := x;
      assert ListAt(table.deaths, table.lists, l);
      assert DeathAt(table, history, x);
      FirstOut(table.lists[l]);
      if table.deaths[x].kind == ClearDone {
        notice := Some(BrClearDone(table.deaths[x].cookie));
        Discard(x);
      } else {
        notice := Some(BrDeadBinder(table.deaths[x].cookie));
        Tell(x, p);
      }
    }

    static lemma FirstOut(list: seq<DeathId>)
      requires list != []
      ensures Without(list, list[0]) == list[1..]
    {
    }

    // --- exits -----------------------------------------------------------------

    /** What emptying a list does: records that have left their reference are freed, the others only unlinked. */
    static ghost predicate Emptied(s: Table, s': Table, l: ListId) {
      && s'.refs == s.refs && s'.owner == s.owner && s'.lists.Keys == s.lists.Keys && l in s'.lists && s'.lists[l] == []
      && (forall m :: m in s.lists && m != l ==> s'.lists[m] == s.lists[m])
      && Swept(s, s', l)
    }

    static ghost predicate Swept(s: Table, s': Table, l: ListId) {
      && (forall d :: d in s'.deaths ==> d in s.deaths)
      && (forall d :: d in s.deaths && s.deaths[d].place != Some(l) ==> d in s'.deaths && s'.deaths[d] == s.deaths[d])
      && (forall d :: d in s.deaths && s.deaths[d].place == Some(l) && s.deaths[d].kind == DeadBinder ==>
                      d in s'.deaths && s'.deaths[d].kind == DeadBinder && s'.deaths[d].place.None?)
      && (forall d :: d in s.deaths && s.deaths[d].place == Some(l) && s.deaths[d].kind != DeadBinder ==> d !in s'.deaths)
    }

    /** `binder_release_work`, for the records of death notices. */
    method ReleaseWork(l: ListId)
      requires Valid() && l in table.lists
      modifies this`table, this`history
      ensures Valid() && Emptied(old(table), table, l) && FreesGone(old(table), old(history), table, history)
    {
      while table.lists[l] != []
        invariant Valid() && table.refs == old(table).refs && table.owner == old(table).owner
        invariant table.lists.Keys == old(table).lists.Keys
        invariant forall m :: m in table.lists && m != l ==> table.lists[m] == old(table).lists[m]
        invariant Sweeping(old(table), table, l) && FreesGone(old(table), old(history), table, history)
        decreases |table.lists[l]|
      {
        ghost var (s, h) := (table, history);
        ReleaseFirst(l, old(table));
        FreesOn(old(table), old(history), s, h, table, history);
      }
      SweepDone(old(table), table, l);
    }

    method ReleaseFirst(l: ListId, ghost s0: Table)
      requires Valid() && l in table.lists && table.lists[l] != [] && Sweeping(s0, table, l)
      modifies this`table, this`history
      ensures Valid() && Sweeping(s0, table, l) && FreesGone(old(table), old(history), table, history)
      ensures table.refs == old(table).refs && table.owner == old(table).owner
      ensures table.lists == old(table).lists[l := old(table).lists[l][1..]]
    {
      SweepFirst(s0, table, history, l);
      var d := table.lists[l][0];
      if table.deaths[d].kind == DeadBinderAndClear || table.deaths[d].kind == ClearDone {
        Discard(d);
      } else {
        Shelve(d);
      }
    }

    static lemma SweepDone(s: Table, s': Table, l: ListId)
      requires Sweeping(s, s', l) && Linked(s'.deaths, s'.lists) && l in s'.lists && s'.lists[l] == []
      ensures Swept(s, s', l)
    {
      forall d | d in s'.deaths
        ensures s'.deaths[d].place != Some(l)
      {
        assert PlaceAt(s'.deaths, s'.lists, d);
      }
    }

    /** Halfway through a list: the records still in it are as they were. */
    static ghost predicate Sweeping(s: Table, s': Table, l: ListId) {
      && (forall d :: d in s'.deaths ==> d in s.deaths)
      && (forall d :: d in s.deaths && s.deaths[d].place != Some(l) ==> d in s'.deaths && s'.deaths[d] == s.deaths[d])
      && (forall d :: d in s'.deaths && s'.deaths[d].place == Some(l) ==> s'.deaths[d] == s.deaths[d])
      && (forall d :: d in s.deaths && s.deaths[d].place == Some(l) && s.deaths[d].kind == DeadBinder ==>
                      d in s'.deaths && s'.deaths[d].kind == DeadBinder
                      && (s'.deaths[d].place == Some(l) || s'.deaths[d].place.None?))
      && (forall d :: d in s.deaths && s.deaths[d].place == Some(l) && s.deaths[d].kind != DeadBinder ==>
                      d in s'.deaths ==> s'.deaths[d].place == Some(l))
    }

    static lemma SweepFirst(s: Table, s': Table, h: History, l: ListId)
      requires Inv(s', h) && l in s'.lists && s'.lists[l] != [] && Sweeping(s, s', l)
      ensures var d := s'.lists[l][0];
              && d in s'.deaths && d in s.deaths && s'.deaths[d].place == Some(l) && s'.deaths[d] == s.deaths[d]
              && Position(s'.lists[l], d) == 0 && Without(s'.lists[l], d) == s'.lists[l][1..]
              && (Attached(s', h, d) <==> s'.deaths[d].kind == DeadBinder) && s'.deaths[d].kind != Unset
    {
      assert ListAt(s'.deaths, s'.lists, l);
      assert DeathAt(s', h, s'.lists[l][0]);
    }

    /** A record that still hangs on its reference leaves the list only. */
    method Shelve(d: DeathId)
      requires Valid() && d in table.deaths && Attached(table, history, d)
      modifies this`table
      ensures Valid() && old(PlaceAt(table.deaths, table.lists, d)) && table == Unlinked(old(table), d)
    {
      AskedOnce(table, history, d);
      assert DeathAt(table, history, d);
      ghost var r := history.asker[d];
      assert RefAt(table, history, r);
      Unlink(d);
      OnlyAtKeeps(old(table), history, table, history, d, r);
    }

    /** `binder_delete_ref`: the record goes with the reference, wherever it is queued. */
    method DeleteRef(r: RefId)
      requires Valid() && r in table.refs
      modifies this`table, this`history
      ensures Valid() && table.refs == old(table).refs - {r} && table.owner == old(table).owner
      ensures table.lists.Keys == old(table).lists.Keys
      ensures old(table).refs[r].death.None? ==> table.deaths == old(table).deaths && history == old(history)
      ensures old(table).refs[r].death.Some? ==>
                var d := old(table).refs[r].death.value;
                && d in old(table).deaths && table.deaths == old(table).deaths - {d}
                && history == old(history).(freed := old(history).freed + {d})
    {
      assert RefAt(table, history, r);
      AllAsked(table, history);
      if table.refs[r].death.Some? {
        var d := table.refs[r].death.value;
        AskedOnce(table, history, d);
        table := table.(refs := table.refs - {r});
        Unlink(d);
        Free(d);
        OnlyAtKeeps(old(table), old(history), table, history, d, r);
      } else {
        NotYetAsked(table, history, next);
        table := table.(refs := table.refs - {r});
        OnlyAtKeeps(old(table), history, table, history, next, r);
      }
    }

    /** The records that the death of node `n` is news for. */
    static ghost predicate Waiting(s: Table, r: RefId, n: NodeId, d: DeathId) {
      r in s.refs && s.refs[r].node == n && s.refs[r].death == Some(d)
    }

    static lemma WaitingLoose(s: Table, h: History, n: NodeId)
      requires Inv(s, h) && Alive(s, n)
      ensures forall r, d :: Waiting(s, r, n, d) ==>
                d in s.deaths && s.deaths[d].kind == Unset && s.deaths[d].place.None? && d in h.asker && h.asker[d] == r
    {
      forall r, d | Waiting(s, r, n, d)
        ensures d in s.deaths && s.deaths[d].kind == Unset && s.deaths[d].place.None? && d in h.asker && h.asker[d] == r
      {
        assert RefAt(s, h, r);
        assert DeathAt(s, h, d);
      }
    }

    /** Everyone who asked about node `n` has been told, except the references `rest`. */
    static ghost predicate AllTold(s0: Table, s: Table, n: NodeId, rest: set<RefId>) {
      && s.refs == s0.refs && s.lists.Keys == s0.lists.Keys && s.deaths.Keys == s0.deaths.Keys
      && (forall r, d :: Waiting(s0, r, n, d) ==> d in s0.deaths)
      && (forall r, d :: Waiting(s0, r, n, d) && r in rest ==> s.deaths[d] == s0.deaths[d])
      && (forall r, d :: Waiting(s0, r, n, d) && r !in rest ==>
            s0.deaths[d].place.None? && s.deaths[d] == Death(s0.deaths[d].cookie, DeadBinder, Some(ProcTodo(s0.refs[r].proc))))
      && (forall d :: d in s0.deaths && (forall r :: !Waiting(s0, r, n, d)) ==> s.deaths[d] == s0.deaths[d])
    }

    /** `binder_node_release`: everyone who asked is told; no record can already be queued. */
    method ReleaseNode(n: NodeId)
      requires Valid() && Alive(table, n)
      modifies this`table
      ensures Valid() && table.owner == old(table).owner[n := None] && AllTold(old(table), table, n, {})
    {
      DieKeeps(table, history, n);
      WaitingLoose(table, history, n);
      table := table.(owner := table.owner[n := None]);
      var rs: set<RefId> := set r | r in table.refs && table.refs[r].node == n;
      while rs != {}
        invariant Valid() && table.owner == old(table).owner[n := None]
        invariant forall r :: r in rs ==> r in table.refs && table.refs[r].node == n
        invariant AllTold(old(table), table, n, rs)
        decreases |rs|
      {
        var r :| r in rs;
        ToldOneMore(old(table), table, history, n, rs, r);
        if table.refs[r].death.Some? {
          assert RefAt(table, history, r);
          Announce(table.refs[r].death.value, ProcTodo(table.refs[r].proc));
        }
        rs := rs - {r};
      }
    }

    /** One reference more has been told, if it asked. */
    static lemma ToldOneMore(s0: Table, s: Table, h: History, n: NodeId, rest: set<RefId>, r: RefId)
      requires AllTold(s0, s, n, rest) && r in rest && r in s.refs && s.refs[r].node == n
      requires forall q, d :: Waiting(s0, q, n, d) ==>
                 d in s0.deaths && s0.deaths[d].kind == Unset && s0.deaths[d].place.None? && d in h.asker && h.asker[d] == q
      ensures s.refs[r].death.None? ==> AllTold(s0, s, n, rest - {r})
      ensures s.refs[r].death.Some? ==>
                var d := s.refs[r].death.value;
                && Waiting(s0, r, n, d) && d in s.deaths && s.deaths[d].kind == Unset
                && (ProcTodo(s.refs[r].proc) in s.lists ==> AllTold(s0, Queued(s, d, DeadBinder, ProcTodo(s.refs[r].proc)), n, rest - {r}))
    {
      if s.refs[r].death.Some? {
        assert Waiting(s0, r, n, s.refs[r].death.value);
      }
    }

    method FreeThread(p: ProcId, t: ThreadId)
      requires Valid() && ThreadTodo(p, t) in table.lists
      modifies this`table, this`history
      ensures Valid() && table.refs == old(table).refs && table.owner == old(table).owner
      ensures table.lists.Keys == old(table).lists.Keys - {ThreadTodo(p, t)}
      ensures Swept(old(table), table, ThreadTodo(p, t)) && FreesGone(old(table), old(history), table, history)
    {
      var l := ThreadTodo(p, t);
      ReleaseWork(l);
      DropLists(table, history, {l});
      table := table.(lists := table.lists - {l});
    }

    /**
     Reference `r`, of another process than `p`, and its record after the nodes in
     `dead` have died: nothing changes but that the news of their deaths is queued.
     */
    static ghost predicate NewsAt(s0: Table, s: Table, p: ProcId, dead: set<NodeId>, r: RefId) {
      r in s0.refs && s0.refs[r].proc != p ==>
        && r in s.refs && s.refs[r] == s0.refs[r]
        && (s0.refs[r].death.Some? ==>
              var d := s0.refs[r].death.value;
              && d in s0.deaths && d in s.deaths
              && s.deaths[d] == if s0.refs[r].node in dead then Death(s0.deaths[d].cookie, DeadBinder, Some(ProcTodo(s0.refs[r].proc)))
                                else s0.deaths[d])
    }

    static ghost predicate NewsOnly(s0: Table, s: Table, p: ProcId, dead: set<NodeId>) {
      forall r {:trigger NewsAt(s0, s, p, dead, r)} :: NewsAt(s0, s, p, dead, r)
    }

    static lemma NoNews(s: Table, h: History, p: ProcId)
      requires Inv(s, h)
      ensures NewsOnly(s, s, p, {})
    {
      forall r
        ensures NewsAt(s, s, p, {}, r)
      {
        if r in s.refs {
          assert RefAt(s, h, r);
        }
      }
    }

    /** Emptying lists of process `p` does not touch what hangs on the references of others. */
    static lemma NewsSwept(s0: Table, s: Table, h: History, s': Table, p: ProcId, dead: set<NodeId>)
      requires Inv(s, h) && NewsOnly(s0, s, p, dead) && s'.refs == s.refs
      requires forall d :: d in s.deaths && !(s.deaths[d].place.Some? && s.deaths[d].place.value.proc == p) ==> d in s'.deaths && s'.deaths[d] == s.deaths[d]
      ensures NewsOnly(s0, s', p, dead)
    {
      forall r
        ensures NewsAt(s0, s', p, dead, r)
      {
        assert NewsAt(s0, s, p, dead, r);
        if r in s.refs && s.refs[r].death.Some? {
          assert RefAt(s, h, r);
          assert DeathAt(s, h, s.refs[r].death.value);
        }
      }
    }

    static lemma NewsDied(s0: Table, s: Table, h: History, s': Table, p: ProcId, dead: set<NodeId>, n: NodeId)
      requires Inv(s, h) && NewsOnly(s0, s, p, dead) && AllTold(s, s', n, {}) && n !in dead
      ensures NewsOnly(s0, s', p, dead + {n})
    {
      forall r
        ensures NewsAt(s0, s', p, dead + {n}, r)
      {
        assert NewsAt(s0, s, p, dead, r);
        if r in s.refs && s.refs[r].death.Some? {
          var d := s.refs[r].death.value;
          assert RefAt(s, h, r);
          AskedOnce(s, h, d);
          assert s.refs[r].node == n ==> Waiting(s, r, n, d);
        }
      }
    }

    static lemma NewsDeleted(s0: Table, s: Table, h: History, s': Table, p: ProcId, dead: set<NodeId>, q: RefId)
      requires Inv(s, h) && NewsOnly(s0, s, p, dead) && q in s.refs && s.refs[q].proc == p && s'.refs == s.refs - {q}
      requires s'.deaths == if s.refs[q].death.Some? then s.deaths - {s.refs[q].death.value} else s.deaths
      ensures NewsOnly(s0, s', p, dead)
    {
      forall r
        ensures NewsAt(s0, s', p, dead, r)
      {
        assert NewsAt(s0, s, p, dead, r);
        assert RefAt(s, h, q);
        if r in s.refs && s.refs[r].death.Some? {
          assert RefAt(s, h, r);
        }
      }
    }

    /** Record `d`, which no reference held, is as it was or freed, and freed only from a list of `p`. */
    static ghost predicate DetachedAt(s0: Table, h0: History, s: Table, p: ProcId, d: DeathId) {
      d in s0.deaths && !Attached(s0, h0, d) && s0.deaths[d].place.Some? ==>
        (d in s.deaths ==> s.deaths[d] == s0.deaths[d]) && (s0.deaths[d].place.value.proc != p ==> d in s.deaths)
    }

    /** No reference changes, and none goes without its record. */
    static ghost predicate RefsLeave(s0: Table, s: Table) {
      && (forall r :: r in s.refs ==> r in s0.refs && s.refs[r] == s0.refs[r])
      && (forall r :: r in s0.refs && r !in s.refs && s0.refs[r].death.Some? ==> s0.refs[r].death.value !in s.deaths)
    }

    /** Between the start of the exit of `p`, at `s0`, and its end. */
    static ghost predicate Leaving(s0: Table, h0: History, s: Table, h: History, p: ProcId, dead: set<NodeId>) {
      && Inv(s0, h0) && Inv(s, h) && NewsOnly(s0, s, p, dead) && FreesGone(s0, h0, s, h) && RefsLeave(s0, s)
      && (forall d {:trigger DetachedAt(s0, h0, s, p, d)} :: DetachedAt(s0, h0, s, p, d))
    }

    static lemma LeavingSwept(s0: Table, h0: History, s: Table, h: History, s': Table, h': History, p: ProcId, dead: set<NodeId>, l: ListId)
      requires Leaving(s0, h0, s, h, p, dead) && Inv(s', h') && Swept(s, s', l) && l.proc == p && s'.refs == s.refs && FreesGone(s, h, s', h')
      ensures Leaving(s0, h0, s', h', p, dead)
    {
      NewsSwept(s0, s, h, s', p, dead);
      FreesOn(s0, h0, s, h, s', h');
      forall d: DeathId
        ensures DetachedAt(s0, h0, s', p, d)
      {
        assert DetachedAt(s0, h0, s, p, d);
        if d in s0.deaths {
          assert DeathAt(s0, h0, d);
        }
      }
    }

    static lemma LeavingDied(s0: Table, h0: History, s: Table, h: History, s': Table, p: ProcId, dead: set<NodeId>, n: NodeId)
      requires Leaving(s0, h0, s, h, p, dead) && Inv(s', h) && AllTold(s, s', n, {}) && n !in dead
      ensures Leaving(s0, h0, s', h, p, dead + {n})
    {
      NewsDied(s0, s, h, s', p, dead, n);
      forall d: DeathId
        ensures DetachedAt(s0, h0, s', p, d)
      {
        assert DetachedAt(s0, h0, s, p, d);
        if r :| Waiting(s, r, n, d) {
          assert RefAt(s, h, r);
          assert Attached(s0, h0, d);
        }
      }
    }

    static lemma LeavingDeleted(s0: Table, h0: History, s: Table, h: History, s': Table, h': History, p: ProcId, dead: set<NodeId>, q: RefId)
      requires Leaving(s0, h0, s, h, p, dead) && Inv(s', h') && q in s.refs && s.refs[q].proc == p && s'.refs == s.refs - {q}
      requires s'.deaths == if s.refs[q].death.Some? then s.deaths - {s.refs[q].death.value} else s.deaths
      requires FreesGone(s, h, s', h')
      ensures Leaving(s0, h0, s', h', p, dead)
    {
      NewsDeleted(s0, s, h, s', p, dead, q);
      FreesOn(s0, h0, s, h, s', h');
      assert RefAt(s, h, q);
      forall d: DeathId
        ensures DetachedAt(s0, h0, s', p, d)
      {
        assert DetachedAt(s0, h0, s, p, d);
        assert s.refs[q].death == Some(d) ==> Attached(s0, h0, d);
      }
    }

    /** The exit of `p` leaves record `d`: it hangs on the reference of another process, or is in a list of one. */
    static ghost predicate Survives(s: Table, h: History, p: ProcId, d: DeathId) {
      if Attached(s, h, d) then s.refs[h.asker[d]].proc != p
      else d in s.deaths && s.deaths[d].place.Some? && s.deaths[d].place.value.proc != p
    }

    static lemma SurvivorsStay(s0: Table, h0: History, s: Table, h: History, p: ProcId, dead: set<NodeId>, d: DeathId)
      requires Leaving(s0, h0, s, h, p, dead) && d in s0.deaths && Survives(s0, h0, p, d)
      ensures d in s.deaths
    {
      assert DetachedAt(s0, h0, s, p, d);
      if Attached(s0, h0, d) {
        assert NewsAt(s0, s, p, dead, h0.asker[d]);
      }
    }

    static lemma OthersGone(s0: Table, h0: History, s: Table, h: History, p: ProcId, dead: set<NodeId>, d: DeathId)
      requires Leaving(s0, h0, s, h, p, dead) && d in s.deaths
      requires forall r :: r in s.refs ==> s.refs[r].proc != p
      requires forall l :: l in s.lists ==> l.proc != p
      ensures d in s0.deaths && Survives(s0, h0, p, d)
    {
      assert DetachedAt(s0, h0, s, p, d) && DeathAt(s0, h0, d) && PlaceAt(s.deaths, s.lists, d);
    }

    static lemma ExitExact(s0: Table, h0: History, s: Table, h: History, p: ProcId, dead: set<NodeId>)
      requires Leaving(s0, h0, s, h, p, dead)
      requires forall r :: r in s.refs ==> s.refs[r].proc != p
      requires forall l :: l in s.lists ==> l.proc != p
      ensures forall d :: d in s.deaths <==> d in s0.deaths && Survives(s0, h0, p, d)
    {
      forall d
        ensures d in s.deaths <==> d in s0.deaths && Survives(s0, h0, p, d)
      {
        if d in s.deaths {
          OthersGone(s0, h0, s, h, p, dead, d);
        } else if d in s0.deaths && Survives(s0, h0, p, d) {
          SurvivorsStay(s0, h0, s, h, p, dead, d);
        }
      }
    }

    /**
     A process exits.  Its references go before its lists, so every record
     found there can be freed: none is lost, and none is left behind.  Other
     processes keep their references, and learn of the deaths they asked about.
     */
    method Exit(p: ProcId)
      requires Valid() && ProcTodo(p) in table.lists && Delivered(p) in table.lists
      modifies this`table, this`history
      ensures Valid()
      ensures FreesGone(old(table), old(history), table, history)
      ensures forall d :: d in table.deaths <==> d in old(table).deaths && Survives(old(table), old(history), p, d)
      ensures forall r :: r in table.refs <==> r in old(table).refs && old(table).refs[r].proc != p
      ensures forall n :: n in table.owner ==> table.owner[n] != Some(p)
      ensures forall l :: l in table.lists <==> l in old(table).lists && l.proc != p
      ensures NewsOnly(old(table), table, p, set n | n in old(table).owner && old(table).owner[n] == Some(p))
    {
      ghost var dead := set n | n in old(table).owner && old(table).owner[n] == Some(p);
      ExitThreads(p, old(table), old(history));
      ExitNodes(p, old(table), old(history));
      ExitRefs(p, old(table), old(history), dead);
      ExitLists(p, old(table), old(history), dead);
      ExitExact(old(table), old(history), table, history, p, dead);
    }

    static lemma OnlyDetached(s: Table, h: History, p: ProcId)
      requires Inv(s, h) && forall r :: r in s.refs ==> s.refs[r].proc != p
      ensures forall d :: d in s.deaths && s.deaths[d].place.Some? && s.deaths[d].place.value.proc == p ==> s.deaths[d].kind != DeadBinder
    {
      forall d | d in s.deaths && s.deaths[d].place.Some? && s.deaths[d].place.value.proc == p
        ensures s.deaths[d].kind != DeadBinder
      {
        assert DeathAt(s, h, d);
      }
    }

    method ReleaseDetached(l: ListId)
      requires Valid() && l in table.lists && forall r :: r in table.refs ==> table.refs[r].proc != l.proc
      modifies this`table, this`history
      ensures Valid() && table.refs == old(table).refs && table.owner == old(table).owner
      ensures table.lists == old(table).lists[l := []]
      ensures table.deaths == map d | d in old(table).deaths && old(table).deaths[d].place != Some(l) :: old(table).deaths[d]
      ensures FreesGone(old(table), old(history), table, history) && Swept(old(table), table, l)
    {
      OnlyDetached(table, history, l.proc);
      ReleaseWork(l);
      SweptDetached(old(table), table, l);
    }

    static lemma SweptDetached(s: Table, s': Table, l: ListId)
      requires Swept(s, s', l) && forall d :: d in s.deaths && s.deaths[d].place == Some(l) ==> s.deaths[d].kind != DeadBinder
      ensures s'.deaths == map d | d in s.deaths && s.deaths[d].place != Some(l) :: s.deaths[d]
    {
      assert forall d :: d in s'.deaths <==> d in s.deaths && s.deaths[d].place != Some(l);
    }

    /** With the references gone, every record in the process's lists is freed. */
    method ExitLists(p: ProcId, ghost s0: Table, ghost h0: History, ghost dead: set<NodeId>)
      requires Valid() && Leaving(s0, h0, table, history, p, dead)
      requires ProcTodo(p) in table.lists && Delivered(p) in table.lists
      requires forall r :: r in table.refs ==> table.refs[r].proc != p
      requires forall l :: l in table.lists ==> !(l.ThreadTodo? && l.proc == p)
      modifies this`table, this`history
      ensures Valid() && table.refs == old(table).refs && table.owner == old(table).owner
      ensures forall l :: l in table.lists <==> l in old(table).lists && l.proc != p
      ensures forall d :: d in table.deaths <==>
                d in old(table).deaths && old(table).deaths[d].place != Some(ProcTodo(p)) && old(table).deaths[d].place != Some(Delivered(p))
      ensures Leaving(s0, h0, table, history, p, dead)
    {
      ReleaseLeaving(ProcTodo(p), s0, h0, dead);
      ReleaseLeaving(Delivered(p), s0, h0, dead);
      DropLists(table, history, {ProcTodo(p), Delivered(p)});
      LeavingLists(s0, h0, table, history, p, dead, table.lists - {ProcTodo(p), Delivered(p)});
      table := table.(lists := table.lists - {ProcTodo(p), Delivered(p)});
    }

    static lemma LeavingLists(s0: Table, h0: History, s: Table, h: History, p: ProcId, dead: set<NodeId>, lists: map<ListId, seq<DeathId>>)
      requires Leaving(s0, h0, s, h, p, dead) && Inv(s.(lists := lists), h)
      ensures Leaving(s0, h0, s.(lists := lists), h, p, dead)
    {
      var s' := s.(lists := lists);
      forall r
        ensures NewsAt(s0, s', p, dead, r)
      {
        assert NewsAt(s0, s, p, dead, r);
      }
      forall d: DeathId
        ensures DetachedAt(s0, h0, s', p, d)
      {
        assert DetachedAt(s0, h0, s, p, d);
      }
    }

    method ReleaseLeaving(l: ListId, ghost s0: Table, ghost h0: History, ghost dead: set<NodeId>)
      requires Valid() && l in table.lists && Leaving(s0, h0, table, history, l.proc, dead)
      requires forall r :: r in table.refs ==> table.refs[r].proc != l.proc
      modifies this`table, this`history
      ensures Valid() && table.refs == old(table).refs && table.owner == old(table).owner
      ensures table.lists == old(table).lists[l := []]
      ensures table.deaths == map d | d in old(table).deaths && old(table).deaths[d].place != Some(l) :: old(table).deaths[d]
      ensures Leaving(s0, h0, table, history, l.proc, dead)
    {
      ReleaseDetached(l);
      LeavingSwept(s0, h0, old(table), old(history), table, history, l.proc, dead, l);
    }

    method ExitThreads(p: ProcId, ghost s0: Table, ghost h0: History)
      requires Valid() && s0 == table && h0 == history
      modifies this`table, this`history
      ensures Leaving(s0, h0, table, history, p, {})
      ensures Valid() && table.refs == old(table).refs && table.owner == old(table).owner
      ensures forall l :: l in table.lists <==> l in old(table).lists && !(l.ThreadTodo? && l.proc == p)
    {
      var ls: set<ListId> := set l | l in table.lists && l.ThreadTodo? && l.proc == p;
      NoNews(table, history, p);
      assert forall d :: DetachedAt(s0, h0, table, p, d);
      while ls != {}
        invariant Leaving(s0, h0, table, history, p, {})
        invariant Valid() && table.refs == old(table).refs && table.owner == old(table).owner
        invariant ls <= table.lists.Keys && forall l :: l in ls ==> l.ThreadTodo? && l.proc == p
        invariant forall l :: l in table.lists <==> l in old(table).lists && (l.ThreadTodo? && l.proc == p ==> l in ls)
        decreases |ls|
      {
        var l :| l in ls;
        ls := ls - {l};
        ghost var (s, h) := (table, history);
        FreeThread(l.proc, l.thread);
        LeavingSwept(s0, h0, s, h, table, history, p, {}, l);
      }
    }

    method ExitNodes(p: ProcId, ghost s0: Table, ghost h0: History)
      requires Valid() && Leaving(s0, h0, table, history, p, {}) && table.owner == s0.owner
      modifies this`table
      ensures Valid() && table.refs == old(table).refs && table.lists.Keys == old(table).lists.Keys
      ensures forall n :: n in table.owner ==> table.owner[n] != Some(p)
      ensures Leaving(s0, h0, table, history, p, set n | n in s0.owner && s0.owner[n] == Some(p))
    {
      var ns: set<NodeId> := set n | n in table.owner && table.owner[n] == Some(p);
      ghost var all := ns;
      assert all - ns == {};
      while ns != {}
        invariant Valid() && table.refs == old(table).refs && table.lists.Keys == old(table).lists.Keys
        invariant ns <= all && Leaving(s0, h0, table, history, p, all - ns)
        invariant forall n :: n in ns <==> n in table.owner && table.owner[n] == Some(p)
        decreases |ns|
      {
        var n :| n in ns;
        ReleaseOwned(n, p, s0, h0, all - ns);
        assert all - (ns - {n}) == (all - ns) + {n};
        ns := ns - {n};
      }
      assert all - ns == all;
    }

    method ReleaseOwned(n: NodeId, ghost p: ProcId, ghost s0: Table, ghost h0: History, ghost dead: set<NodeId>)
      requires Valid() && Alive(table, n) && Leaving(s0, h0, table, history, p, dead) && n !in dead
      modifies this`table
      ensures Valid() && table.refs == old(table).refs && table.lists.Keys == old(table).lists.Keys
      ensures table.owner == old(table).owner[n := None] && Leaving(s0, h0, table, history, p, dead + {n})
    {
      ReleaseNode(n);
      LeavingDied(s0, h0, old(table), history, table, p, dead, n);
    }

    method ExitRefs(p: ProcId, ghost s0: Table, ghost h0: History, ghost dead: set<NodeId>)
      requires Valid() && Leaving(s0, h0, table, history, p, dead)
      modifies this`table, this`history
      ensures Leaving(s0, h0, table, history, p, dead)
      ensures Valid() && table.owner == old(table).owner && table.lists.Keys == old(table).lists.Keys
      ensures forall r :: r in table.refs <==> r in old(table).refs && old(table).refs[r].proc != p
      ensures forall r :: r in table.refs ==> table.refs[r] == old(table).refs[r]
    {
      var rs: set<RefId> := set r | r in table.refs && table.refs[r].proc == p;
      while rs != {}
        invariant Leaving(s0, h0, table, history, p, dead)
        invariant Valid() && table.owner == old(table).owner && table.lists.Keys == old(table).lists.Keys
        invariant forall r :: r in rs ==> r in table.refs && table.refs[r].proc == p
        invariant forall r :: r in table.refs <==> r in old(table).refs && (old(table).refs[r].proc != p || r in rs)
        invariant forall r :: r in table.refs ==> table.refs[r] == old(table).refs[r]
        decreases |rs|
      {
        var r :| r in rs;
        rs := rs - {r};
        ghost var (s, h) := (table, history);
        DeleteRef(r);
        LeavingDeleted(s0, h0, s, h, table, history, p, dead, r);
      }
    }

    // --- beginnings --------------------------------------------------------------

    method OpenProc(p: ProcId)
      requires Valid() && forall l :: l in table.lists ==> l.proc != p
      modifies this`table
      ensures Valid() && table == old(table).(lists := old(table).lists[ProcTodo(p) := []][Delivered(p) := []])
    {
      GrowKeeps(table, history, table.(lists := table.lists[ProcTodo(p) := []][Delivered(p) := []]));
      table := table.(lists := table.lists[ProcTodo(p) := []][Delivered(p) := []]);
    }

    method NewThread(p: ProcId, t: ThreadId)
      requires Valid() && ProcTodo(p) in table.lists && Delivered(p) in table.lists && ThreadTodo(p, t) !in table.lists
      modifies this`table
      ensures Valid() && table == old(table).(lists := old(table).lists[ThreadTodo(p, t) := []])
    {
      GrowKeeps(table, history, table.(lists := table.lists[ThreadTodo(p, t) := []]));
      table := table.(lists := table.lists[ThreadTodo(p, t) := []]);
    }

    method NewNode(p: ProcId, n: NodeId)
      requires Valid() && ProcTodo(p) in table.lists && n !in table.owner
      modifies this`table
      ensures Valid() && table == old(table).(owner := old(table).owner[n := Some(p)])
    {
      GrowKeeps(table, history, table.(owner := table.owner[n := Some(p)]));
      table := table.(owner := table.owner[n := Some(p)]);
    }

    method NewRef(p: ProcId, n: NodeId, r: RefId)
      requires Valid() && ProcTodo(p) in table.lists && Delivered(p) in table.lists && n in table.owner && r !in table.refs
      modifies this`table
      ensures Valid() && table == old(table).(refs := old(table).refs[r := Ref(p, n, None)])
    {
      GrowKeeps(table, history, table.(refs := table.refs[r := Ref(p, n, None)]));
      table := table.(refs := table.refs[r := Ref(p, n, None)]);
    }
  }
}
