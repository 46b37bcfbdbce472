/**
 Death notices: a process asks to be told when the owner of a node dies.  Its
 record hangs on the reference, on a list of work, or on both.
 */
module DeathTable {

  import opened Wrappers
  import opened Sequences

  type RefId = nat
  type NodeId = nat
  type ProcId = nat
  type ThreadId = nat
  type DeathId = nat

  datatype Kind = Unset | DeadBinder | DeadBinderAndClear | ClearDone

  datatype ListId = ThreadTodo(proc: ProcId, thread: ThreadId) | ProcTodo(proc: ProcId) | Delivered(proc: ProcId)

  /** `place` is the list that the record's only list entry is linked into. */
  datatype Death = Death(cookie: nat, kind: Kind, place: Option<ListId>)

  datatype Ref = Ref(proc: ProcId, node: NodeId, death: Option<DeathId>)

  /** `owner` maps every node there has ever been to its process, or to nothing once that is gone. */
  datatype Table = Table(
    refs: map<RefId, Ref>,
    owner: map<NodeId, Option<ProcId>>,
    deaths: map<DeathId, Death>,
    lists: map<ListId, seq<DeathId>>)

  // --- lists ---------------------------------------------------------------

  predicate ListAt(deaths: map<DeathId, Death>, lists: map<ListId, seq<DeathId>>, l: ListId)
    requires l in lists
  {
    Distinct(lists[l]) && forall i :: 0 <= i < |lists[l]| ==> lists[l][i] in deaths && deaths[lists[l][i]].place == Some(l)
  }

  predicate PlaceAt(deaths: map<DeathId, Death>, lists: map<ListId, seq<DeathId>>, d: DeathId)
    requires d in deaths
  {
    deaths[d].place.Some? ==> deaths[d].place.value in lists && d in lists[deaths[d].place.value]
  }

  /** Every linked record is in exactly the list its entry says, once. */
  predicate Linked(deaths: map<DeathId, Death>, lists: map<ListId, seq<DeathId>>) {
    && (forall l {:trigger ListAt(deaths, lists, l)} :: l in lists ==> ListAt(deaths, lists, l))
    && (forall d {:trigger PlaceAt(deaths, lists, d)} :: d in deaths ==> PlaceAt(deaths, lists, d))
  }

  function Without(list: seq<DeathId>, d: DeathId): seq<DeathId>
    requires d in list
  {
    RemoveAt(list, Position(list, d))
  }

  lemma WithoutOnce(list: seq<DeathId>, d: DeathId)
    requires Distinct(list) && d in list
    ensures Distinct(Without(list, d))
    ensures forall x :: x in Without(list, d) <==> x in list && x != d
  {
    var i, list' := Position(list, d), Without(list, d);
    assert forall k :: 0 <= k < |list'| ==> list'[k] == list[if k < i then k else k + 1];
    forall x | x in list && x != d
      ensures x in list'
    {
      var k := Position(list, x);
      assert list'[if k < i then k else k - 1] == x;
    }
  }

  /** `list_del_init`, which does nothing to an entry that is in no list. */
  function Unlinked(s: Table, d: DeathId): Table
    requires d in s.deaths && Linked(s.deaths, s.lists) && PlaceAt(s.deaths, s.lists, d)
  {
    match s.deaths[d].place
    case None => s
    case Some(l) => s.(deaths := s.deaths[d := s.deaths[d].(place := None)], lists := s.lists[l := Without(s.lists[l], d)])
  }

  lemma UnlinkKeeps(s: Table, d: DeathId)
    requires d in s.deaths && Linked(s.deaths, s.lists) && PlaceAt(s.deaths, s.lists, d)
    ensures Linked(Unlinked(s, d).deaths, Unlinked(s, d).lists) && Unlinked(s, d).deaths[d].place.None?
  {
    var s' := Unlinked(s, d);
    if s.deaths[d].place.Some? {
      var l := s.deaths[d].place.value;
      assert ListAt(s.deaths, s.lists, l);
      WithoutOnce(s.lists[l], d);
      forall m | m in s'.lists
        ensures ListAt(s'.deaths, s'.lists, m)
      {
        assert ListAt(s.deaths, s.lists, m);
        assert forall i :: 0 <= i < |s'.lists[m]| ==> s'.lists[m][i] in s.lists[m];
      }
      forall x | x in s'.deaths
        ensures PlaceAt(s'.deaths, s'.lists, x)
      {
        assert PlaceAt(s.deaths, s.lists, x);
      }
    }
  }

  /** `list_add_tail`, with the type of work. */
  function Queued(s: Table, d: DeathId, kind: Kind, l: ListId): Table
    requires d in s.deaths && l in s.lists
  {
    s.(deaths := s.deaths[d := s.deaths[d].(kind := kind, place := Some(l))], lists := s.lists[l := s.lists[l] + [d]])
  }

  lemma QueueKeeps(s: Table, d: DeathId, kind: Kind, l: ListId)
    requires d in s.deaths && l in s.lists && Linked(s.deaths, s.lists) && s.deaths[d].place.None?
    ensures Linked(Queued(s, d, kind, l).deaths, Queued(s, d, kind, l).lists)
  {
    var s' := Queued(s, d, kind, l);
    forall m | m in s'.lists
      ensures ListAt(s'.deaths, s'.lists, m)
    {
      assert ListAt(s.deaths, s.lists, m);
    }
    forall x | x in s'.deaths
      ensures PlaceAt(s'.deaths, s'.lists, x)
    {
      if x != d {
        assert PlaceAt(s.deaths, s.lists, x);
      }
    }
  }

  /** `list_move`: to the head of the delivered list. */
  function Delivery(s: Table, d: DeathId, l: ListId): Table
    requires d in s.deaths && l in s.lists
  {
    s.(deaths := s.deaths[d := s.deaths[d].(place := Some(l))], lists := s.lists[l := [d] + s.lists[l]])
  }

  lemma DeliveryKeeps(s: Table, d: DeathId, l: ListId)
    requires d in s.deaths && l in s.lists && Linked(s.deaths, s.lists) && s.deaths[d].place.None?
    ensures Linked(Delivery(s, d, l).deaths, Delivery(s, d, l).lists)
  {
    var s' := Delivery(s, d, l);
    forall m | m in s'.lists
      ensures ListAt(s'.deaths, s'.lists, m)
    {
      assert ListAt(s.deaths, s.lists, m);
    }
    forall x | x in s'.deaths
      ensures PlaceAt(s'.deaths, s'.lists, x)
    {
      if x != d {
        assert PlaceAt(s.deaths, s.lists, x);
      } else {
        assert s'.lists[l][0] == d;
      }
    }
  }

  /** Records that are in no list come and go, and change, freely. */
  lemma LooseKeeps(deaths: map<DeathId, Death>, deaths': map<DeathId, Death>, lists: map<ListId, seq<DeathId>>)
    requires Linked(deaths, lists)
    requires forall d :: d in deaths' ==> deaths'[d].place.None? || (d in deaths && deaths[d].place == deaths'[d].place)
    requires forall d :: d in deaths && deaths[d].place.Some? ==> d in deaths' && deaths'[d].place == deaths[d].place
    ensures Linked(deaths', lists)
  {
    forall l | l in lists
      ensures ListAt(deaths', lists, l)
    {
      assert ListAt(deaths, lists, l);
    }
    forall d | d in deaths'
      ensures PlaceAt(deaths', lists, d)
    {
      if deaths'[d].place.Some? {
        assert PlaceAt(deaths, lists, d);
      }
    }
  }

  // --- what the records mean -----------------------------------------------

  /**
   What happened: which reference asked for each record and about which node,
   whose user has been told of the death, and which records have been freed.
   */
  datatype History = History(asker: map<DeathId, RefId>, about: map<DeathId, NodeId>, told: set<DeathId>, freed: set<DeathId>)

  predicate Alive(s: Table, n: NodeId) {
    n in s.owner && s.owner[n].Some?
  }

  /** The record still hangs on the reference that asked for it. */
  predicate Attached(s: Table, h: History, d: DeathId) {
    d in h.asker && h.asker[d] in s.refs && s.refs[h.asker[d]].death == Some(d)
  }

  predicate RefAt(s: Table, h: History, r: RefId)
    requires r in s.refs
  {
    && s.refs[r].node in s.owner
    && ProcTodo(s.refs[r].proc) in s.lists && Delivered(s.refs[r].proc) in s.lists
    && (s.refs[r].death.Some? ==>
          var d := s.refs[r].death.value;
          d in s.deaths && d in h.asker && h.asker[d] == r && d in h.about && h.about[d] == s.refs[r].node)
  }

  predicate DeathAt(s: Table, h: History, d: DeathId)
    requires d in s.deaths
  {
    var x := s.deaths[d];
    && d in h.asker && d in h.about && h.about[d] in s.owner && d !in h.freed
    && (if Attached(s, h, d) then
          // While the node lives nothing is queued; afterwards only the news of its death is.
          && (x.kind == Unset || x.kind == DeadBinder)
          && (Alive(s, h.about[d]) ==> x.kind == Unset)
          && (x.kind == Unset ==> x.place.None? && d !in h.told)
          && (x.place.Some? ==> x.place.value.proc == s.refs[h.asker[d]].proc)
        else
          x.place.Some? && (x.kind == DeadBinderAndClear || x.kind == ClearDone))
    && (x.kind == DeadBinder || x.kind == DeadBinderAndClear ==> !Alive(s, h.about[d]))
    && (x.place.Some? && x.place.value.Delivered? ==> x.kind != ClearDone && d in h.told)
    && (x.place.Some? && !x.place.value.Delivered? && x.kind != ClearDone ==> d !in h.told)
  }

  predicate Meaning(s: Table, h: History) {
    && (forall r {:trigger RefAt(s, h, r)} :: r in s.refs ==> RefAt(s, h, r))
    && (forall d {:trigger DeathAt(s, h, d)} :: d in s.deaths ==> DeathAt(s, h, d))
    && (forall l :: l in s.lists ==> ProcTodo(l.proc) in s.lists && Delivered(l.proc) in s.lists)
  }

  predicate Inv(s: Table, h: History) {
    Linked(s.deaths, s.lists) && Meaning(s, h)
  }

  /** No record comes, those that go are freed, and nothing else happens. */
  predicate FreesGone(s: Table, h: History, s': Table, h': History) {
    s'.deaths.Keys <= s.deaths.Keys && h' == h.(freed := h.freed + (s.deaths.Keys - s'.deaths.Keys))
  }

  lemma FreesOn(s: Table, h: History, s1: Table, h1: History, s2: Table, h2: History)
    requires FreesGone(s, h, s1, h1) && FreesGone(s1, h1, s2, h2)
    ensures FreesGone(s, h, s2, h2)
  {
    var (k, k1, k2) := (s.deaths.Keys, s1.deaths.Keys, s2.deaths.Keys);
    assert (k - k1) + (k1 - k2) == k - k2;
    assert h2.freed == h.freed + (k - k1) + (k1 - k2);
  }

  /** Only record `d` and what reference `r` says of it differ. */
  ghost predicate OnlyAt(s: Table, h: History, s': Table, h': History, d: DeathId, r: RefId) {
    && s'.owner == s.owner && s'.lists.Keys == s.lists.Keys
    && (forall x :: x != d ==> (x in s'.deaths <==> x in s.deaths))
    && (forall x :: x != d && x in s.deaths ==> s'.deaths[x] == s.deaths[x])
    && (forall y :: y != r ==> (y in s'.refs <==> y in s.refs))
    && (forall y :: y != r && y in s.refs ==> s'.refs[y] == s.refs[y])
    && (s'.refs == s.refs
        || ((r in s.refs ==> s.refs[r].death == None || s.refs[r].death == Some(d))
            && (r in s'.refs ==> s'.refs[r].death == None || s'.refs[r].death == Some(d))))
    && (forall x :: x != d && x in h.asker ==> x in h'.asker && h'.asker[x] == h.asker[x])
    && (forall x :: x != d && x in h.about ==> x in h'.about && h'.about[x] == h.about[x])
    && (forall x :: x != d ==> (x in h'.told <==> x in h.told) && (x in h'.freed <==> x in h.freed))
  }

  lemma OnlyAtKeeps(s: Table, h: History, s': Table, h': History, d: DeathId, r: RefId)
    requires Meaning(s, h) && OnlyAt(s, h, s', h', d, r)
    requires forall y :: y in s.refs && s.refs[y].death == Some(d) ==> y == r
    requires r in s'.refs ==> RefAt(s', h', r)
    requires d in s'.deaths ==> DeathAt(s', h', d)
    ensures Meaning(s', h')
  {
    forall y | y in s'.refs
      ensures RefAt(s', h', y)
    {
      if y != r {
        assert RefAt(s, h, y);
      }
    }
    forall x | x in s'.deaths
      ensures DeathAt(s', h', x)
    {
      if x != d {
        assert DeathAt(s, h, x);
        assert Attached(s', h', x) <==> Attached(s, h, x);
      }
    }
    assert forall l :: l in s'.lists ==> l in s.lists;
  }

  lemma AllAsked(s: Table, h: History)
    requires Meaning(s, h)
    ensures forall d :: d in s.deaths ==> d in h.asker && d !in h.freed
  {
    forall d | d in s.deaths
      ensures d in h.asker && d !in h.freed
    {
      assert DeathAt(s, h, d);
    }
  }

  /** The empty list of a thread, or both lists of a process without threads and references, can go. */
  lemma DropLists(s: Table, h: History, gone: set<ListId>)
    requires Inv(s, h) && forall l :: l in gone && l in s.lists ==> s.lists[l] == []
    requires forall l :: l in s.lists && l !in gone ==> ProcTodo(l.proc) !in gone && Delivered(l.proc) !in gone
    requires forall r :: r in s.refs ==> ProcTodo(s.refs[r].proc) !in gone && Delivered(s.refs[r].proc) !in gone
    ensures Inv(s.(lists := s.lists - gone), h)
  {
    var s' := s.(lists := s.lists - gone);
    forall m | m in s'.lists
      ensures ListAt(s.deaths, s'.lists, m)
    {
      assert ListAt(s.deaths, s.lists, m);
    }
    forall d | d in s.deaths
      ensures PlaceAt(s.deaths, s'.lists, d)
    {
      assert PlaceAt(s.deaths, s.lists, d);
    }
    forall r | r in s.refs
      ensures RefAt(s', h, r)
    {
      assert RefAt(s, h, r);
    }
    forall d | d in s.deaths
      ensures DeathAt(s', h, d)
    {
      assert DeathAt(s, h, d);
      assert Attached(s', h, d) == Attached(s, h, d);
    }
  }

  /** New empty lists, new references without a record and new nodes change nothing else. */
  lemma GrowKeeps(s: Table, h: History, s': Table)
    requires Inv(s, h) && s'.deaths == s.deaths
    requires forall l :: l in s.lists ==> l in s'.lists && s'.lists[l] == s.lists[l]
    requires forall l :: l in s'.lists && l !in s.lists ==> s'.lists[l] == []
    requires forall l :: l in s'.lists ==> ProcTodo(l.proc) in s'.lists && Delivered(l.proc) in s'.lists
    requires forall r :: r in s.refs ==> r in s'.refs && s'.refs[r] == s.refs[r]
    requires forall r :: r in s'.refs && r !in s.refs ==>
               s'.refs[r].death.None? && s'.refs[r].node in s'.owner && ProcTodo(s'.refs[r].proc) in s'.lists && Delivered(s'.refs[r].proc) in s'.lists
    requires forall n :: n in s.owner ==> n in s'.owner && s'.owner[n] == s.owner[n]
    ensures Inv(s', h)
  {
    forall m | m in s'.lists
      ensures ListAt(s'.deaths, s'.lists, m)
    {
      if m in s.lists {
        assert ListAt(s.deaths, s.lists, m);
      }
    }
    forall d | d in s'.deaths
      ensures PlaceAt(s'.deaths, s'.lists, d) && DeathAt(s', h, d)
    {
      assert PlaceAt(s.deaths, s.lists, d);
      assert DeathAt(s, h, d);
      assert Attached(s', h, d) == Attached(s, h, d);
    }
    forall r | r in s'.refs
      ensures RefAt(s', h, r)
    {
      if r in s.refs {
        assert RefAt(s, h, r);
      }
    }
  }

  /** The owner of a node dies. */
  lemma DieKeeps(s: Table, h: History, n: NodeId)
    requires Inv(s, h) && n in s.owner
    ensures Inv(s.(owner := s.owner[n := None]), h)
  {
    var s' := s.(owner := s.owner[n := None]);
    forall r | r in s'.refs
      ensures RefAt(s', h, r)
    {
      assert RefAt(s, h, r);
    }
    forall d | d in s'.deaths
      ensures DeathAt(s', h, d)
    {
      assert DeathAt(s, h, d);
      assert Attached(s', h, d) == Attached(s, h, d);
    }
  }
}
