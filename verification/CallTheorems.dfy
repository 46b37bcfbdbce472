/**
 What the invariant of synchronous calls means for the records themselves, and
 the theorem that every run of the driver keeps it.
 */
module CallTheorems {
  import opened Wrappers
  import opened CallChains
  import opened CallSteps
  import opened CallDriver

  /** `d` was sent while its sender served `t`. */
  predicate NestedIn(txs: map<TxId, Tx>, d: TxId, t: TxId) {
    d in txs && txs[d].fromParent == Some(t)
  }

  /** Calls nest linearly: a call has at most one call nested directly in it. */
  lemma NestingIsLinear(threads: map<ThreadId, Thread>, txs: map<TxId, Tx>, g: Calls, d: TxId, e: TxId, t: TxId)
    requires Inv(threads, txs, g, None)
    requires NestedIn(txs, d, t) && NestedIn(txs, e, t)
    ensures d == e
  {
    NestedPosition(threads, txs, g, d, t);
    NestedPosition(threads, txs, g, e, t);
  }

  /** A nested call sits one position inside the call it is nested in, which is live; so nesting is acyclic. */
  lemma NestedPosition(threads: map<ThreadId, Thread>, txs: map<TxId, Tx>, g: Calls, d: TxId, t: TxId)
    requires Inv(threads, txs, g, None) && NestedIn(txs, d, t)
    ensures t in txs && t in g.home && d in g.home
    ensures g.home[t].root == g.home[d].root && g.home[t].pos + 1 == g.home[d].pos
    ensures g.home[d].root in g.chains && g.home[d].pos < |g.chains[g.home[d].root].txs|
    ensures d == g.chains[g.home[d].root].txs[g.home[d].pos]
    ensures txs[t].place.Delivered? && txs[t].toThread == txs[d].from
  {
    assert HomeOk(g, d);
    var r, i := g.home[d].root, g.home[d].pos;
    assert ChainAt(txs, g.chains, None, r) && ChainPlaced(g, r);
    assert Linked(txs, g.chains[r], i);
    assert Linked(txs, g.chains[r], i - 1);
  }

  /** Somebody is able to end the call `t`. */
  predicate Endable(threads: map<ThreadId, Thread>, t: Tx, id: TxId) {
    match t.place
    case Delivered => t.toThread.Some? && t.toThread.value in threads && threads[t.toThread.value].stack == Some(id)
    case ThreadQueue(b) => b in threads && threads[b].stack.Some? && t.from != Some(b)
    case ProcQueue(_) => true
  }

  /**
   A call with no call nested in it is the active one of its chain: it is being
   served by a live thread that has it on top of its stack, or is queued; and its
   caller, if still alive, waits for exactly this call.
   */
  lemma InnermostIsActive(threads: map<ThreadId, Thread>, txs: map<TxId, Tx>, g: Calls, t: TxId)
    requires Inv(threads, txs, g, None) && t in txs
    requires forall d :: !NestedIn(txs, d, t)
    ensures Endable(threads, txs[t], t)
    ensures txs[t].from.Some? ==> txs[t].from.value in threads && threads[txs[t].from.value].stack == Some(t)
  {
    assert HomeOk(g, t);
    var r, i := g.home[t].root, g.home[t].pos;
    var c := g.chains[r];
    assert ChainAt(txs, g.chains, None, r) && PathPlaced(g, r);
    assert Linked(txs, c, i);
    if i + 1 < |c.txs| {
      assert Linked(txs, c, i + 1);
      assert NestedIn(txs, c.txs[i + 1], t);
    }
    assert i == |c.txs| - 1;
    if txs[t].from.Some? {
      CallerOnTop(threads, txs, g, r);
    }
    if Delivering(c) {
      var y := c.path[|c.txs|].value;
      assert ThreadOk(threads[y], y, g);
    } else if txs[t].place.ThreadQueue? {
      var b := txs[t].place.thread;
      assert c.path[Last(c.path, b, |c.path|)] == Some(b);
      assert ThreadOk(threads[b], b, g);
    }
  }

  lemma CallerOnTop(threads: map<ThreadId, Thread>, txs: map<TxId, Tx>, g: Calls, r: TxId)
    requires Inv(threads, txs, g, None) && r in g.chains
    ensures var c := g.chains[r];
            && 1 <= |c.txs| <= |c.path|
            && (c.path[|c.txs| - 1].Some? ==>
                  var f := c.path[|c.txs| - 1].value;
                  f in threads && threads[f].stack == Some(c.txs[|c.txs| - 1]) && threads[f].err2 == Ok)
  {
    var c := g.chains[r];
    assert ChainAt(txs, g.chains, None, r) && PathPlaced(g, r);
    var n := |c.txs|;
    if c.path[n - 1].Some? {
      var f := c.path[n - 1].value;
      assert ThreadOk(threads[f], f, g);
      LastIsLast(c.path, f, |c.path|, n - 1);
      if Delivering(c) {
        assert CallsAnother(c.path, n - 1);
      }
    }
  }

  /** No record refers to a thread that has exited, and no stack to a call that has ended. */
  lemma NothingDangles(threads: map<ThreadId, Thread>, txs: map<TxId, Tx>, g: Calls)
    requires Inv(threads, txs, g, None)
    ensures forall id :: id in txs && txs[id].from.Some? ==> txs[id].from.value in threads
    ensures forall id :: id in txs && txs[id].toThread.Some? ==> txs[id].toThread.value in threads
    ensures forall x :: x in threads && threads[x].stack.Some? ==> threads[x].stack.value in txs
  {
    forall id | id in txs
      ensures txs[id].from.Some? ==> txs[id].from.value in threads
      ensures txs[id].toThread.Some? ==> txs[id].toThread.value in threads
    {
      assert HomeOk(g, id);
      var r, i := g.home[id].root, g.home[id].pos;
      var c := g.chains[r];
      assert ChainAt(txs, g.chains, None, r) && PathPlaced(g, r);
      assert Linked(txs, c, i);
      if txs[id].place.ThreadQueue? {
        var j := Last(c.path, txs[id].place.thread, |c.path|);
      }
    }
    forall x | x in threads && threads[x].stack.Some? ensures threads[x].stack.value in txs {
      assert ThreadOk(threads[x], x, g);
      var r := g.site[x];
      assert ChainAt(txs, g.chains, None, r);
      TopServedIffActive(txs, g.chains[r], r, x);
    }
  }

  // --- runs ----------------------------------------------------------------

  /** The commands of a run, with the outcome of everything outside the driver. */
  datatype Command =
    | CSpawn(x: ThreadId, p: ProcId)
    | CSend(x: ThreadId, id: TxId, p: ProcId, early: Option<Status>, fail: Option<Status>)
    | CDeliver(x: ThreadId, id: TxId)
    | CReply(x: ThreadId, fail: Option<Status>)
    | CFail(x: ThreadId, e: Status)
    | CRead(x: ThreadId, room: nat, fault: nat)
    | CExit(x: ThreadId)
    | CRelease(p: ProcId)

  /** Executes one command if the driver would start it in the present state. */
  method Step(d: Driver, cmd: Command)
    requires d.Valid()
    modifies d
    ensures d.Valid()
  {
    match cmd
    case CSpawn(x, p) =>
      if x !in d.threads {
        d.Spawn(x, p);
      }
    case CSend(x, id, p, early, fail) =>
      if x in d.threads && d.threads[x].err == Ok && id !in d.txs && early != Some(Ok) && fail != Some(Ok) {
        assert ThreadOk(d.threads[x], x, d.calls);
        if d.threads[x].stack.Some? {
          ghost var r := d.calls.site[x];
          assert ChainAt(d.txs, d.calls.chains, None, r);
          TopServedIffActive(d.txs, d.calls.chains[r], r, x);
          if d.txs[d.threads[x].stack.value].toThread == Some(x) {
            var target := d.FindTarget(x, p);
            if target == Some(x) {
              return;
            }
          }
        }
        assert !d.ToItself(x, p);
        var _ := d.Send(x, id, p, early, fail);
      }
    case CDeliver(x, id) =>
      if x in d.threads && id in d.txs
         && (d.txs[id].place == ThreadQueue(x) || (d.txs[id].place == ProcQueue(d.threads[x].proc) && d.threads[x].stack == None)) {
        d.Deliver(x, id);
      }
    case CReply(x, fail) =>
      if x in d.threads && d.threads[x].err == Ok && fail != Some(Ok) {
        var _ := d.Reply(x, fail);
      }
    case CFail(x, e) =>
      if x in d.threads && d.threads[x].err == Ok && e != Ok {
        d.FailCommand(x, e);
      }
    case CRead(x, room, fault) =>
      if x in d.threads {
        var _ := d.ReadErrors(x, room, fault);
      }
    case CExit(x) =>
      if x in d.threads {
        d.FreeThread(x);
      }
    case CRelease(p) =>
      d.ReleaseProcQueue(p);
  }

  /** Every run, in which no call is addressed to its own sender, keeps the invariant and fires no check. */
  method Run(cmds: seq<Command>) returns (d: Driver)
    ensures fresh(d) && d.Valid()
  {
    d := new Driver();
    for i := 0 to |cmds|
      invariant d.Valid() && fresh(d)
    {
      Step(d, cmds[i]);
    }
  }

  // --- the guard -----------------------------------------------------------

  /** BC_REPLY by `x` would be accepted as far as the check that its caller waits for this call, which would fire. */
  predicate ReplyMismatch(threads: map<ThreadId, Thread>, txs: map<TxId, Tx>, x: ThreadId) {
    && x in threads && threads[x].stack.Some? && threads[x].stack.value in txs
    && var id := threads[x].stack.value;
    && var t := txs[id];
    && t.toThread == Some(x) && t.from.Some? && t.from.value in threads
    && (if t.from.value == x then t.toParent else threads[t.from.value].stack) != Some(id)
  }

  predicate SomeMismatch(threads: map<ThreadId, Thread>, txs: map<TxId, Tx>) {
    exists y :: y in threads && ReplyMismatch(threads, txs, y)
  }

  /** In no state of a run is there a thread whose reply would fail the check. */
  lemma NeverMismatched(threads: map<ThreadId, Thread>, txs: map<TxId, Tx>, g: Calls, x: ThreadId)
    requires Inv(threads, txs, g, None)
    ensures !ReplyMismatch(threads, txs, x)
  {
    if x in threads && threads[x].stack.Some? {
      assert ThreadOk(threads[x], x, g);
      var r := g.site[x];
      var c := g.chains[r];
      assert ChainAt(txs, g.chains, None, r) && PathPlaced(g, r);
      TopServedIffActive(txs, c, r, x);
      CallerOnTop(threads, txs, g, r);
      assert Linked(txs, c, |c.txs| - 1);
      assert Delivering(c) ==> CallsAnother(c.path, |c.txs| - 1);
    }
  }

  /** After a send there is a thread whose reply would fail the check exactly when the sender addressed itself. */
  lemma SendSafeIffNotToSelf(threads: map<ThreadId, Thread>, txs: map<TxId, Tx>, g: Calls,
                             x: ThreadId, id: TxId, target: Option<ThreadId>, p: ProcId)
    requires Inv(threads, txs, g, None) && x in threads && threads[x].err == Ok && id !in txs && MayCall(g, x)
    requires target.Some? ==> x in g.site && Last(g.chains[g.site[x]].path, target.value, |g.chains[g.site[x]].path|) >= 0
    ensures var t := Tx(Some(x), threads[x].stack, target, None, if target.Some? then ThreadQueue(target.value) else ProcQueue(p));
            SomeMismatch(threads[x := threads[x].(stack := Some(id))], txs[id := t]) <==> target == Some(x)
  {
    var t := Tx(Some(x), threads[x].stack, target, None, if target.Some? then ThreadQueue(target.value) else ProcQueue(p));
    var threads', txs' := threads[x := threads[x].(stack := Some(id))], txs[id := t];
    if target == Some(x) {
      assert ReplyMismatch(threads', txs', x);
    } else {
      SendKeeps(threads, txs, g, id, x, t);
      forall y
        ensures !ReplyMismatch(threads', txs', y)
      {
        NeverMismatched(threads', txs', Sent(g, id, x), y);
      }
    }
  }

  // A run: thread 1 of process 10 calls thread 2 of process 20, which calls back.

  function Sent1(): Calls {
    Calls(map[100 := Chain([100], [Some(1)])], map[100 := Slot(100, 0)], map[1 := 100])
  }

  function Taken1(): Calls {
    Calls(map[100 := Chain([100], [Some(1), Some(2)])], map[100 := Slot(100, 0)], map[1 := 100, 2 := 100])
  }

  function Sent2(): Calls {
    Calls(map[100 := Chain([100, 101], [Some(1), Some(2)])], map[100 := Slot(100, 0), 101 := Slot(100, 1)], map[1 := 100, 2 := 100])
  }

  function Taken2(): Calls {
    Calls(map[100 := Chain([100, 101], [Some(1), Some(2), Some(1)])], Sent2().home, Sent2().site)
  }

  /** Thread 2 has exited. */
  function Alone(): Calls {
    Calls(map[100 := Chain([100, 101], [Some(1), None, Some(1)])], Sent2().home, map[1 := 100])
  }

  lemma RunOfCalls()
    ensures Sent(Calls(map[], map[], map[]), 100, 1) == Sent1() && DeliveredTo(Sent1(), 100, 2) == Taken1()
    ensures MayCall(Taken1(), 2) && Sent(Taken1(), 101, 2) == Sent2() && DeliveredTo(Sent2(), 100, 1) == Taken2()
    ensures Exited(Taken2(), 100, 2, false) == Alone()
  {
    assert Served(Sent1().chains[100], 2) == Taken1().chains[100];
    assert Extended(Taken1().chains[100], 101) == Sent2().chains[100];
    assert Served(Sent2().chains[100], 1) == Taken2().chains[100];
    assert Killed(Taken2().chains[100].path, 2) == Alone().chains[100].path;
  }

  method Called() returns (d: Driver)
    ensures fresh(d) && d.Valid() && d.calls == Taken1()
    ensures d.threads == map[1 := Thread(10, Some(100), Ok, Ok), 2 := Thread(20, Some(100), Ok, Ok)]
    ensures d.txs == map[100 := Tx(Some(1), None, Some(2), None, Delivered)]
  {
    RunOfCalls();
    d := new Driver();
    d.Spawn(1, 10);
    d.Spawn(2, 20);
    var ok := d.Send(1, 100, 20, None, None);
    assert ok && d.calls == Sent1();
    assert d.txs == map[100 := Tx(Some(1), None, None, None, ProcQueue(20))];
    d.Deliver(2, 100);
  }

  method CalledBack() returns (d: Driver)
    ensures fresh(d) && d.Valid() && d.calls == Taken2()
    ensures d.threads == map[1 := Thread(10, Some(101), Ok, Ok), 2 := Thread(20, Some(101), Ok, Ok)]
    ensures d.txs == map[100 := Tx(Some(1), None, Some(2), None, Delivered), 101 := Tx(Some(2), Some(100), Some(1), Some(100), Delivered)]
  {
    RunOfCalls();
    d := Called();
    assert OutermostIn(d.threads, Taken1().chains[100], 10, 0) == Some(1);
    var ok := d.Send(2, 101, 10, None, None);
    assert ok && d.calls == Sent2();
    d.Deliver(1, 101);
  }

  /** A call to oneself is reachable: thread 1 calls its own process, and its reply would fail the check. */
  method SelfCallReachable() returns (d: Driver)
    ensures ReplyMismatch(d.threads, d.txs, 1)
  {
    d := CalledBack();
    assert OutermostIn(d.threads, Taken2().chains[100], 10, 0) == Some(1);
    var ok := d.Send(1, 102, 10, None, None);
    assert ok && d.txs[102] == Tx(Some(1), Some(101), Some(1), None, ThreadQueue(1));
  }

  /** Thread 2 exits while thread 1 serves its call. */
  method LeftAlone() returns (d: Driver)
    ensures fresh(d) && d.Valid() && d.calls == Alone()
    ensures d.threads == map[1 := Thread(10, Some(101), Ok, Ok)] && 101 in d.txs && d.txs[101].from == None
  {
    RunOfCalls();
    d := CalledBack();
    ghost var txs := d.txs;
    assert !Holds(txs[101], Taken2().chains[100], 2);
    d.FreeThread(2);
  }

  /**
   Two codes pending are reachable: the reply of thread 1 fails back to thread 1
   itself, which waits further up.  With room for one code nothing is then cleared.
   */
  method TwoCodesReachable() returns (d: Driver, told: seq<Status>)
    ensures d.Valid() && 1 in d.threads && told == [Complete] && Pending(d.threads[1]) == [Complete, DeadReply]
  {
    d := LeftAlone();
    var ok := d.Reply(1, None);
    ghost var e := Chain([100, 101], [Some(1), None]);
    assert Detached(Alone().chains[100]) == e;
    assert LiveCaller(e.path, 2) == 0;
    assert d.threads[1] == Thread(10, None, DeadReply, Complete);
    told := d.ReadErrors(1, 4, 2);
  }
}
