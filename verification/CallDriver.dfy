/**
 The driver's handling of synchronous calls: sending, delivering, replying,
 failing a reply, and the exit of a thread or process.  Each method is one
 command executed under the driver's lock; a `BUG_ON` of the driver is an
 `assert` here.
 */
module CallDriver {
  import opened Wrappers
  import opened CallChains
  import opened CallSteps

  /** The outermost live caller at position `i` or later that belongs to process `p`. */
  function OutermostIn(threads: map<ThreadId, Thread>, c: Chain, p: ProcId, i: nat): (b: Option<ThreadId>)
    requires i <= |c.txs| <= |c.path|
    ensures b.Some? ==> b.value in threads && threads[b.value].proc == p && Last(c.path, b.value, |c.path|) >= 0
    decreases |c.txs| - i
  {
    if i == |c.txs| then None
    else if c.path[i].Some? && c.path[i].value in threads && threads[c.path[i].value].proc == p then
      LastIsLast(c.path, c.path[i].value, |c.path|, i);
      c.path[i]
    else OutermostIn(threads, c, p, i + 1)
  }

  /** It is none exactly if no live caller from `i` on is in `p`, and otherwise the first one that is. */
  lemma {:induction false} OutermostIsFirst(threads: map<ThreadId, Thread>, c: Chain, p: ProcId, i: nat)
    requires i <= |c.txs| <= |c.path|
    ensures var b := OutermostIn(threads, c, p, i);
            && (b.None? <==> forall k :: i <= k < |c.txs| && c.path[k].Some? && c.path[k].value in threads ==> threads[c.path[k].value].proc != p)
            && (b.Some? ==>
                  exists k :: i <= k < |c.txs| && c.path[k] == b
                    && forall j :: i <= j < k && c.path[j].Some? && c.path[j].value in threads ==> threads[c.path[j].value].proc != p)
    decreases |c.txs| - i
  {
    if i < |c.txs| {
      OutermostIsFirst(threads, c, p, i + 1);
      var b := OutermostIn(threads, c, p, i);
      if c.path[i].Some? && c.path[i].value in threads && threads[c.path[i].value].proc == p {
        assert c.path[i] == b;
      }
    }
  }

  /** The position of the innermost live caller among the first `n` calls, or -1. */
  function LiveCaller(path: seq<Option<ThreadId>>, n: nat): (k: int)
    requires n <= |path|
    ensures -1 <= k < n
    ensures k >= 0 ==> path[k].Some?
    ensures forall j :: k < j < n ==> path[j].None?
  {
    if n == 0 then -1 else if path[n - 1].Some? then n - 1 else LiveCaller(path, n - 1)
  }

  /** The chains once the innermost call of `r` has failed back to its innermost live caller. */
  function Unwound(chains: map<TxId, Chain>, r: TxId): map<TxId, Chain>
    requires r in chains && |chains[r].txs| <= |chains[r].path|
  {
    var c := chains[r];
    var k := LiveCaller(c.path, |c.txs|);
    if k <= 0 then chains - {r} else chains[r := Chain(c.txs[..k], c.path[..k + 1])]
  }

  function Ids(c: Chain, k: nat): set<TxId>
    requires k <= |c.txs|
  {
    set i | k <= i < |c.txs| :: c.txs[i]
  }

  /** Ending the innermost of the first `m` calls of `c` leaves the first `m - 1`. */
  lemma EndedPrefix(g: Calls, base: map<TxId, Chain>, c: Chain, m: nat, r: TxId)
    requires 1 <= m <= |c.txs| && |c.path| == |c.txs|
    requires g.chains == base[r := Chain(c.txs[..m], c.path[..m])]
    ensures Ended(g, r).chains ==
            if m == 1 then base - {r}
            else base[r := Chain(c.txs[..m - 1], if c.path[m - 1].Some? then c.path[..m] else c.path[..m - 1])]
  {
    var d := g.chains[r];
    assert d.txs[..m - 1] == c.txs[..m - 1];
    assert d.path[..m] == c.path[..m];
    assert d.path[..m][..m - 1] == c.path[..m - 1];
  }

  /** The records of chain `r` from position `k` on with the references to `x` removed. */
  function ForgottenFrom(txs: map<TxId, Tx>, g: Calls, r: TxId, x: ThreadId, k: nat): map<TxId, Tx>
    requires txs.Keys == g.home.Keys
  {
    map id | id in txs :: if g.home[id].root == r && g.home[id].pos >= k then Forget(txs[id], x) else txs[id]
  }

  lemma NoVisitAfter(path: seq<Option<ThreadId>>, x: ThreadId, n: nat)
    requires n <= |path|
    ensures forall k :: Last(path, x, n) < k < n ==> path[k] != Some(x)
  {
    forall k | Last(path, x, n) < k < n ensures path[k] != Some(x) {
      if path[k] == Some(x) {
        LastIsLast(path, x, n, k);
      }
    }
  }

  /** Records strictly between two visits of `x` do not mention it. */
  lemma NothingToForget(txs: map<TxId, Tx>, g: Calls, r: TxId, x: ThreadId, j: nat, k: nat)
    requires Homes(txs, g) && r in g.chains && ChainOk(txs, g.chains[r], r, false)
    requires j <= k <= |g.chains[r].txs|
    requires forall i :: j <= i <= k && i < |g.chains[r].path| ==> g.chains[r].path[i] != Some(x)
    ensures ForgottenFrom(txs, g, r, x, k) == ForgottenFrom(txs, g, r, x, j)
  {
    var c := g.chains[r];
    forall id | id in txs && g.home[id].root == r && j <= g.home[id].pos < k ensures Forget(txs[id], x) == txs[id] {
      assert HomeOk(g, id);
      assert Linked(txs, c, g.home[id].pos);
    }
  }

  lemma ForgottenFromEnd(txs: map<TxId, Tx>, g: Calls, r: TxId, x: ThreadId)
    requires Homes(txs, g) && r in g.chains
    ensures ForgottenFrom(txs, g, r, x, |g.chains[r].txs|) == txs
  {
    forall id | id in txs ensures HomeOk(g, id) {
    }
  }

  /** Removing the references to `x` at position `i` extends the cleaned part of the chain. */
  lemma ForgetOneMore(txs: map<TxId, Tx>, g: Calls, r: TxId, x: ThreadId, i: nat)
    requires Homes(txs, g) && r in g.chains && i < |g.chains[r].txs|
    ensures var id := g.chains[r].txs[i];
            && id in txs
            && ForgottenFrom(txs, g, r, x, i) == ForgottenFrom(txs, g, r, x, i + 1)[id := Forget(txs[id], x)]
  {
    assert ChainPlaced(g, r);
    forall d | d in txs ensures HomeOk(g, d) {
    }
  }

  /** Where the exit walk stands: at call `i`, with everything inside it already cleaned. */
  ghost predicate WalkAt(c: Chain, x: ThreadId, i: int, t: Option<TxId>) {
    && -1 <= i < |c.txs|
    && t == (if i < 0 then None else Some(c.txs[i]))
    && (i >= 0 ==> i < |c.path| && (c.path[i] == Some(x) || (i + 1 < |c.path| && c.path[i + 1] == Some(x))))
  }

  /** The exit walk starts at the innermost call that involves `x`. */
  lemma WalkStart(threads: map<ThreadId, Thread>, txs: map<TxId, Tx>, g: Calls, x: ThreadId) returns (i: int)
    requires Inv(threads, txs, g, None) && x in g.site
    ensures x in threads && g.site[x] in g.chains && ChainOk(txs, g.chains[g.site[x]], g.site[x], false)
    ensures WalkAt(g.chains[g.site[x]], x, i, threads[x].stack)
    ensures txs == ForgottenFrom(txs, g, g.site[x], x, i + 1)
  {
    var r := g.site[x];
    assert ThreadOk(threads[x], x, g);
    assert ChainAt(txs, g.chains, None, r);
    var c := g.chains[r];
    var j, n := Last(c.path, x, |c.path|), |c.txs|;
    ForgottenFromEnd(txs, g, r, x);
    if j < n {
      i := j;
      NoVisitAfter(c.path, x, |c.path|);
      NothingToForget(txs, g, r, x, j + 1, n);
    } else {
      i := n - 1;
    }
  }

  /** One step of the exit walk at a call that `x` serves. */
  lemma WalkServed(txs: map<TxId, Tx>, g: Calls, r: TxId, x: ThreadId, i: nat)
    requires Homes(txs, g) && r in g.chains && ChainOk(txs, g.chains[r], r, false)
    requires var c := g.chains[r]; i < |c.txs| && i + 1 < |c.path| && c.path[i + 1] == Some(x)
    ensures var c := g.chains[r];
            var id, l := c.txs[i], Last(c.path, x, i + 1);
            && id in txs && ForgottenFrom(txs, g, r, x, i + 1)[id] == txs[id]
            && txs[id].toThread == Some(x)
            && l < i && txs[id].toParent == (if l < 0 then None else Some(c.txs[l]))
            && ForgottenFrom(txs, g, r, x, i + 1)[id := txs[id].(toThread := None)] == ForgottenFrom(txs, g, r, x, l + 1)
  {
    var c := g.chains[r];
    assert Linked(txs, c, i) && CallsAnother(c.path, i) && ChainPlaced(g, r);
    ForgetOneMore(txs, g, r, x, i);
    NoVisitAfter(c.path, x, i + 1);
    NothingToForget(txs, g, r, x, Last(c.path, x, i + 1) + 1, i);
  }

  /** One step of the exit walk at a call that `x` sent. */
  lemma WalkSent(txs: map<TxId, Tx>, g: Calls, r: TxId, x: ThreadId, i: nat)
    requires Homes(txs, g) && r in g.chains && ChainOk(txs, g.chains[r], r, false)
    requires var c := g.chains[r]; i < |c.txs| && c.path[i] == Some(x)
    ensures var c := g.chains[r];
            var id := c.txs[i];
            && id in txs && ForgottenFrom(txs, g, r, x, i + 1)[id] == txs[id]
            && txs[id].toThread != Some(x) && txs[id].from == Some(x)
            && txs[id].fromParent == (if i == 0 then None else Some(c.txs[i - 1]))
            && ForgottenFrom(txs, g, r, x, i + 1)[id := txs[id].(from := None)] == ForgottenFrom(txs, g, r, x, i)
  {
    var c := g.chains[r];
    assert Linked(txs, c, i) && ChainPlaced(g, r);
    assert i + 1 < |c.path| ==> CallsAnother(c.path, i);
    ForgetOneMore(txs, g, r, x, i);
  }

  /** Only the orphaned call can be queued for a thread that does not exist. */
  lemma OnlyOrphanQueued(threads: map<ThreadId, Thread>, txs: map<TxId, Tx>, g: Calls, o: Option<TxId>, x: ThreadId, id: TxId)
    requires Inv(threads, txs, g, o) && x !in threads && id in txs && txs[id].place == ThreadQueue(x)
    ensures o.Some? && o.value in g.chains
    ensures var c := g.chains[o.value]; |c.txs| >= 1 && |c.path| == |c.txs| && c.txs[|c.txs| - 1] == id
  {
    QueuedIsLeaf(txs, g, o, id);
    var r := g.home[id].root;
    var c := g.chains[r];
    assert ChainAt(txs, g.chains, o, r) && PathPlaced(g, r);
  }

  /** The error codes a thread has still to be told, in the order it is told them. */
  function Pending(t: Thread): seq<Status> {
    (if t.err2 != Ok then [t.err2] else []) + (if t.err != Ok then [t.err] else [])
  }

  /** The calls that end when the innermost one of chain `c` fails: all inside the innermost live caller's. */
  function Lost(c: Chain): set<TxId>
    requires |c.txs| <= |c.path|
  {
    var k := LiveCaller(c.path, |c.txs|);
    Ids(c, if k < 0 then 0 else k)
  }

  /** `threads` once the innermost live caller in chain `c` has been given `code`; its older error moves to the second slot. */
  function Blamed(threads: map<ThreadId, Thread>, c: Chain, code: Status): map<ThreadId, Thread> {
    var k := if |c.txs| <= |c.path| then LiveCaller(c.path, |c.txs|) else -1;
    if 0 <= k < |c.txs| && c.path[k].Some? && c.path[k].value in threads then
      var f := c.path[k].value;
      threads[f := threads[f].(stack := if k == 0 then None else Some(c.txs[k - 1]), err := code, err2 := threads[f].err)]
    else threads
  }

  // --- a failing chain -------------------------------------------------------

  /** The calls of chain `r` from the `m`th on have failed, all of them with callers that are gone. */
  ghost predicate Unwinding(chains0: map<TxId, Chain>, txs0: map<TxId, Tx>, r: TxId, m: nat,
                            chains: map<TxId, Chain>, txs: map<TxId, Tx>)
    requires r in chains0
  {
    var c := chains0[r];
    && 1 <= m <= |c.txs| == |c.path|
    && chains == chains0[r := Chain(c.txs[..m], c.path[..m])] && txs == txs0 - Ids(c, m)
    && forall j :: m <= j < |c.txs| ==> c.path[j].None?
  }

  lemma UnwindStart(chains: map<TxId, Chain>, txs: map<TxId, Tx>, r: TxId)
    requires r in chains && 1 <= |chains[r].txs| == |chains[r].path|
    ensures Unwinding(chains, txs, r, |chains[r].txs|, chains, txs)
    ensures chains[r].txs[|chains[r].txs| - 1] in Lost(chains[r])
  {
    var c := chains[r];
    assert c.txs[..|c.txs|] == c.txs && c.path[..|c.txs|] == c.path;
    assert LiveCaller(c.path, |c.txs|) <= |c.txs| - 1;
  }

  lemma UnwindOn(chains0: map<TxId, Chain>, txs0: map<TxId, Tx>, r: TxId, m: nat, g: Calls, txs: map<TxId, Tx>)
    requires r in chains0 && Unwinding(chains0, txs0, r, m, g.chains, txs) && m > 1 && chains0[r].path[m - 1].None?
    ensures Unwinding(chains0, txs0, r, m - 1, Ended(g, r).chains, txs - {chains0[r].txs[m - 1]}) && StillOrphan(g, r) == Some(r)
  {
    var c := chains0[r];
    EndedPrefix(g, chains0, c, m, r);
    assert Ids(c, m - 1) == Ids(c, m) + {c.txs[m - 1]};
  }

  /** The failure stops at a call whose caller lives, or at the root. */
  lemma UnwindStop(chains0: map<TxId, Chain>, txs0: map<TxId, Tx>, r: TxId, m: nat, g: Calls, txs: map<TxId, Tx>,
                   threads: map<ThreadId, Thread>, code: Status)
    requires r in chains0 && Unwinding(chains0, txs0, r, m, g.chains, txs) && (m == 1 || chains0[r].path[m - 1].Some?)
    ensures Ended(g, r).chains == Unwound(chains0, r)
    ensures txs - {chains0[r].txs[m - 1]} == txs0 - Lost(chains0[r])
    ensures Blamed(threads, g.chains[r], code) == Blamed(threads, chains0[r], code)
    ensures chains0[r].path[m - 1].None? ==> StillOrphan(g, r) == None && Blamed(threads, chains0[r], code) == threads
  {
    var c := chains0[r];
    var d := Chain(c.txs[..m], c.path[..m]);
    EndedPrefix(g, chains0, c, m, r);
    var k := if c.path[m - 1].Some? then m - 1 else -1;
    assert LiveCaller(c.path, |c.txs|) == k && LiveCaller(d.path, m) == k;
    assert Ids(c, m - 1) == Ids(c, m) + {c.txs[m - 1]};
  }

  // --- the exit of a thread --------------------------------------------------

  /**
   What the exit of thread `x`, in the middle of calls, leaves.  Every record
   forgets it; if it held the innermost call of its chain, that call fails up to
   the innermost live caller, and nothing else changes.
   */
  ghost predicate Left(threads0: map<ThreadId, Thread>, txs0: map<TxId, Tx>, g0: Calls, x: ThreadId,
                       threads: map<ThreadId, Thread>, txs: map<TxId, Tx>, g: Calls)
  {
    && x in g0.site && g0.site[x] in g0.chains && txs0.Keys == g0.home.Keys
    && var r := g0.site[x];
    && var c := g0.chains[r];
    && 1 <= |c.txs| <= |c.path| && c.txs[|c.txs| - 1] in txs0
    && var held := Holds(txs0[c.txs[|c.txs| - 1]], c, x);
    && var e := Exited(g0, r, x, held);
    && if held then
         && g.chains == Unwound(e.chains, r)
         && threads == Blamed(threads0 - {x}, e.chains[r], DeadReply)
         && txs == Forgotten(txs0, g0, r, x) - Lost(e.chains[r])
       else g == e && threads == threads0 - {x} && txs == Forgotten(txs0, g0, r, x)
  }

  // --- the release of a process's queue --------------------------------------

  /** The chains whose innermost call is queued for process `p`. */
  predicate QueuedFor(txs: map<TxId, Tx>, chains: map<TxId, Chain>, p: ProcId, r: TxId) {
    && r in chains && 1 <= |chains[r].txs| == |chains[r].path|
    && var leaf := chains[r].txs[|chains[r].txs| - 1];
    && leaf in txs && txs[leaf].place == ProcQueue(p)
  }

  function HitBy(txs: map<TxId, Tx>, chains: map<TxId, Chain>, p: ProcId): set<TxId> {
    set r | r in chains && QueuedFor(txs, chains, p, r)
  }

  /** All chains, those in `hit` failed back to their innermost live callers. */
  function UnwoundAll(chains: map<TxId, Chain>, hit: set<TxId>): map<TxId, Chain>
    requires forall r :: r in hit ==> r in chains && |chains[r].txs| <= |chains[r].path|
  {
    map r | r in chains && (r in hit ==> LiveCaller(chains[r].path, |chains[r].txs|) > 0) ::
      if r in hit then Unwound(chains, r)[r] else chains[r]
  }

  /** Every thread, told of the failure if it is the innermost live caller in a chain of `hit`. */
  function BlamedAll(threads: map<ThreadId, Thread>, g: Calls, hit: set<TxId>): map<ThreadId, Thread> {
    map y | y in threads ::
      if y in g.site && g.site[y] in hit && g.site[y] in g.chains then Blamed(threads, g.chains[g.site[y]], DeadReply)[y] else threads[y]
  }

  /** All calls but those that fail with the chains in `hit`. */
  function Spared(txs: map<TxId, Tx>, chains: map<TxId, Chain>, hit: set<TxId>): map<TxId, Tx>
    requires forall r :: r in hit ==> r in chains && |chains[r].txs| <= |chains[r].path|
  {
    map id | id in txs && (forall r :: r in hit ==> id !in Lost(chains[r])) :: txs[id]
  }

  /** The chains in `hit`, and no others, have failed. */
  ghost predicate Failing(threads0: map<ThreadId, Thread>, txs0: map<TxId, Tx>, g0: Calls, p: ProcId, hit: set<TxId>,
                          threads: map<ThreadId, Thread>, txs: map<TxId, Tx>, g: Calls)
  {
    && hit <= HitBy(txs0, g0.chains, p)
    && g.chains == UnwoundAll(g0.chains, hit) && txs == Spared(txs0, g0.chains, hit) && threads == BlamedAll(threads0, g0, hit)
  }

  lemma HitNone(threads: map<ThreadId, Thread>, txs: map<TxId, Tx>, g: Calls)
    ensures UnwoundAll(g.chains, {}) == g.chains && Spared(txs, g.chains, {}) == txs && BlamedAll(threads, g, {}) == threads
  {
  }

  /** A chain that still has a queued call has not failed. */
  lemma NotYetHit(txs0: map<TxId, Tx>, chains0: map<TxId, Chain>, p: ProcId, hit: set<TxId>, txs: map<TxId, Tx>, g: Calls, r: TxId)
    requires hit <= HitBy(txs0, chains0, p) && g.chains == UnwoundAll(chains0, hit) && txs == Spared(txs0, chains0, hit)
    requires QueuedFor(txs, g.chains, p, r)
    ensures r !in hit && r in chains0 && g.chains[r] == chains0[r] && r in HitBy(txs0, chains0, p)
  {
  }

  /** One more chain fails. */
  lemma HitOne(threads: map<ThreadId, Thread>, txs: map<TxId, Tx>, g: Calls, p: ProcId, hit: set<TxId>, r: TxId)
    requires Sites(threads, g) && hit <= HitBy(txs, g.chains, p) && r in HitBy(txs, g.chains, p) && r !in hit
    ensures var chains := UnwoundAll(g.chains, hit);
            && r in chains && chains[r] == g.chains[r]
            && Unwound(chains, r) == UnwoundAll(g.chains, hit + {r})
            && Spared(txs, g.chains, hit) - Lost(g.chains[r]) == Spared(txs, g.chains, hit + {r})
            && Blamed(BlamedAll(threads, g, hit), g.chains[r], DeadReply) == BlamedAll(threads, g, hit + {r})
  {
    assert PathPlaced(g, r);
    var chains := UnwoundAll(g.chains, hit);
    assert Unwound(chains, r) == UnwoundAll(g.chains, hit + {r});
    BlamedOnce(threads, g, hit, r);
  }

  /** Only a thread of the failing chain is told, and it has not been told before. */
  lemma BlamedOnce(threads: map<ThreadId, Thread>, g: Calls, hit: set<TxId>, r: TxId)
    requires r in g.chains && r !in hit && PathPlaced(g, r)
    ensures Blamed(BlamedAll(threads, g, hit), g.chains[r], DeadReply) == BlamedAll(threads, g, hit + {r})
  {
    var c := g.chains[r];
    var before, after := BlamedAll(threads, g, hit), BlamedAll(threads, g, hit + {r});
    forall y | y in threads
      ensures Blamed(before, c, DeadReply)[y] == after[y]
    {
    }
  }

  /** Once nothing is queued, every chain that had a queued call has failed. */
  lemma HitAll(txs0: map<TxId, Tx>, chains0: map<TxId, Chain>, p: ProcId, hit: set<TxId>, txs: map<TxId, Tx>, g: Calls)
    requires hit <= HitBy(txs0, chains0, p) && g.chains == UnwoundAll(chains0, hit) && txs == Spared(txs0, chains0, hit)
    requires Homes(txs, g) && forall id :: id in txs ==> txs[id].place != ProcQueue(p)
    ensures hit == HitBy(txs0, chains0, p)
  {
    forall r | r in g.chains && |g.chains[r].txs| > 0
      ensures g.chains[r].txs[|g.chains[r].txs| - 1] in txs
    {
      assert ChainPlaced(g, r);
    }
    assert forall r :: r in chains0 && r !in hit ==> r in g.chains && g.chains[r] == chains0[r];
  }

  // --- what the stacks were ---------------------------------------------------

  /** For each call, the caller's stack when it was sent and the callee's when it was delivered. */
  datatype History = History(sent: map<TxId, Option<TxId>>, taken: map<TxId, Option<TxId>>)

  predicate RecordAt(txs: map<TxId, Tx>, h: History, id: TxId)
    requires id in txs
  {
    && id in h.sent && txs[id].fromParent == h.sent[id]
    && (txs[id].place.Delivered? ==> id in h.taken && txs[id].toParent == h.taken[id])
  }

  /** Every live record still says what the stacks were. */
  predicate Recorded(txs: map<TxId, Tx>, h: History) {
    forall id {:trigger RecordAt(txs, h, id)} :: id in txs ==> RecordAt(txs, h, id)
  }

  lemma RecordedKept(txs: map<TxId, Tx>, txs': map<TxId, Tx>, h: History)
    requires Recorded(txs, h)
    requires forall id :: id in txs' ==>
               id in txs && txs'[id].fromParent == txs[id].fromParent && txs'[id].toParent == txs[id].toParent && txs'[id].place == txs[id].place
    ensures Recorded(txs', h)
  {
    forall id | id in txs'
      ensures RecordAt(txs', h, id)
    {
      assert RecordAt(txs, h, id);
    }
  }

  class Driver {
    var threads: map<ThreadId, Thread>
    var txs: map<TxId, Tx>
    ghost var calls: Calls
    ghost var history: History

    ghost predicate Valid()
      reads this
    {
      Inv(threads, txs, calls, None) && Recorded(txs, history)
    }

    constructor ()
      ensures Valid() && threads == map[] && txs == map[] && calls == Calls(map[], map[], map[])
    {
      threads, txs := map[], map[];
      calls := Calls(map[], map[], map[]);
      history := History(map[], map[]);
    }

    /** A command that fails leaves its code in the first error slot. */
    method FailCommand(x: ThreadId, e: Status)
      requires Valid() && x in threads && threads[x].err == Ok && e != Ok
      modifies this`threads
      ensures Valid() && threads == old(threads)[x := old(threads[x]).(err := e)]
    {
      ErrorsKept(threads, txs, calls, x, e, threads[x].err2);
      threads := threads[x := threads[x].(err := e)];
    }

    /**
     Returning the pending errors to the user, the second slot first.  There are
     `room` bytes, a code takes four, and the write after `fault` successful ones
     fails.  What is returned is what is taken out of the slots, unless the room
     ends exactly between two codes: then both stay, and the first is returned
     again.  An end inside a code is not noticed.
     */
    method ReadErrors(x: ThreadId, room: nat, fault: nat) returns (told: seq<Status>)
      requires Valid() && x in threads
      modifies this`threads
      ensures Valid() && x in threads
      ensures threads == old(threads)[x := old(threads[x]).(err := threads[x].err, err2 := threads[x].err2)]
      ensures told <= Pending(old(threads[x])) && |told| <= fault && (room % 4 == 0 ==> 4 * |told| <= room)
      ensures Pending(threads[x]) == if room == 4 && |Pending(old(threads[x]))| == 2 then Pending(old(threads[x]))
                                     else Pending(old(threads[x]))[|told|..]
      ensures room > 0 && fault >= 2 ==>
                |told| == if room == 4 && |Pending(old(threads[x]))| == 2 then 1 else |Pending(old(threads[x]))|
    {
      told := [];
      assert ThreadOk(threads[x], x, calls);
      if threads[x].err == Ok || room == 0 || fault == 0 {
        return;
      }
      if threads[x].err2 != Ok {
        told := [threads[x].err2];
        if room == 4 {
          return;
        }
        ErrorsKept(threads, txs, calls, x, threads[x].err, Ok);
        threads := threads[x := threads[x].(err2 := Ok)];
      }
      if fault == |told| {
        return;
      }
      told := told + [threads[x].err];
      ErrorsKept(threads, txs, calls, x, Ok, Ok);
      threads := threads[x := threads[x].(err := Ok)];
    }

    method Spawn(x: ThreadId, p: ProcId)
      requires Valid() && x !in threads
      modifies this`threads
      ensures Valid() && threads == old(threads)[x := Thread(p, None, Ok, Ok)]
    {
      SpawnKept(threads, txs, calls, x, p);
      threads := threads[x := Thread(p, None, Ok, Ok)];
    }

    /** The search for a thread of `p` that already waits further up the caller's chain. */
    method FindTarget(x: ThreadId, p: ProcId) returns (target: Option<ThreadId>)
      requires Valid() && x in threads && threads[x].stack.Some? && MayCall(calls, x) && x in calls.site
      ensures target == OutermostIn(threads, calls.chains[calls.site[x]], p, 0)
      // No caller on the way to the root is in `p`, or the target is the outermost one that is.
      ensures var c := calls.chains[calls.site[x]];
              && |c.txs| <= |c.path|
              && (target.None? <==> forall k :: 0 <= k < |c.txs| && c.path[k].Some? ==> c.path[k].value in threads && threads[c.path[k].value].proc != p)
              && (target.Some? ==>
                    && target.value in threads && threads[target.value].proc == p
                    && exists k :: 0 <= k < |c.txs| && c.path[k] == target
                         && forall j :: 0 <= j < k && c.path[j].Some? ==> c.path[j].value in threads && threads[c.path[j].value].proc != p)
    {
      ghost var r := calls.site[x];
      ghost var c := calls.chains[r];
      assert ChainAt(txs, calls.chains, None, r);
      CallerStack(threads, calls, x);
      assert PathPlaced(calls, r);
      OutermostIsFirst(threads, c, p, 0);
      target := None;
      var tmp := threads[x].stack;
      ghost var i := |c.txs|;
      while tmp.Some?
        invariant 0 <= i <= |c.txs|
        invariant tmp == if i == 0 then None else Some(c.txs[i - 1])
        invariant target == OutermostIn(threads, c, p, i)
        decreases i
      {
        i := i - 1;
        assert Linked(txs, c, i);
        var t := txs[tmp.value];
        if t.from.Some? && threads[t.from.value].proc == p {
          target := t.from;
        }
        tmp := t.fromParent;
      }
    }

    /** A call of `x` to process `p` would be queued for `x` itself. */
    ghost predicate ToItself(x: ThreadId, p: ProcId)
      reads this
    {
      && x in calls.site && MayCall(calls, x) && |calls.chains[calls.site[x]].txs| <= |calls.chains[calls.site[x]].path|
      && OutermostIn(threads, calls.chains[calls.site[x]], p, 0) == Some(x)
    }

    /**
     BC_TRANSACTION without TF_ONE_WAY to process `p`.  `early` is the code of a
     failure to find the target, `fail` that of any failure after the stack check,
     such as a full buffer.  Only a call to itself leaves the structure of chains.
     */
    method Send(x: ThreadId, id: TxId, p: ProcId, early: Option<Status>, fail: Option<Status>) returns (sent: bool)
      requires Valid() && x in threads && threads[x].err == Ok && id !in txs
      requires early != Some(Ok) && fail != Some(Ok)
      modifies this
      ensures Recorded(txs, history) && (!sent || !old(ToItself(x, p)) ==> Valid())
      ensures sent <==> early == None && fail == None && old(MayCall(calls, x))
      ensures !sent ==>
                && txs == old(txs) && calls == old(calls) && history == old(history)
                && threads == old(threads)[x := old(threads[x]).(
                     err := if early.Some? then early.value else if old(MayCall(calls, x)) then fail.value else FailedReply)]
      ensures sent ==>
                && calls == Sent(old(calls), id, x)
                && history == old(history).(sent := old(history).sent[id := old(threads[x].stack)])
                && threads == old(threads)[x := old(threads[x]).(stack := Some(id))]
                && var b := if x in old(calls.site) && |old(calls.chains[calls.site[x]].txs)| <= |old(calls.chains[calls.site[x]].path)|
                            then old(OutermostIn(threads, calls.chains[calls.site[x]], p, 0)) else None;
                   txs == old(txs)[id := Tx(Some(x), old(threads[x].stack), b, None, if b.Some? then ThreadQueue(b.value) else ProcQueue(p))]
      // A nested call goes to the thread that waits outermost in its chain, if one of `p` does.
      ensures sent && x !in old(calls.site) ==> id in txs && txs[id].place == ProcQueue(p) && txs[id].toThread == None
      ensures sent && x in old(calls.site) ==>
                && id in txs && old(calls.site[x]) in old(calls.chains)
                && var (c, b) := (old(calls.chains[calls.site[x]]), txs[id].toThread);
                && |c.txs| <= |c.path|
                && txs[id].place == (if b.Some? then ThreadQueue(b.value) else ProcQueue(p))
                && (b.None? <==> forall k :: 0 <= k < |c.txs| && c.path[k].Some? ==> c.path[k].value in old(threads) && old(threads)[c.path[k].value].proc != p)
                && (b.Some? ==>
                      && b.value in old(threads) && old(threads)[b.value].proc == p
                      && exists k :: 0 <= k < |c.txs| && c.path[k] == b
                           && forall j :: 0 <= j < k && c.path[j].Some? ==> c.path[j].value in old(threads) && old(threads)[c.path[j].value].proc != p)
    {
      var target := None;
      if early.Some? {
        FailCommand(x, early.value);
        return false;
      }
      assert ThreadOk(threads[x], x, calls);
      if threads[x].stack.Some? {
        assert ChainAt(txs, calls.chains, None, calls.site[x]);
        TopServedIffActive(txs, calls.chains[calls.site[x]], calls.site[x], x);
        if txs[threads[x].stack.value].toThread != Some(x) {
          FailCommand(x, FailedReply);
          return false;
        }
        target := FindTarget(x, p);
      }
      if fail.Some? {
        FailCommand(x, fail.value);
        return false;
      }
      Push(x, id, p, target);
      return true;
    }

    /** The call goes on its sender's stack and into a queue. */
    method Push(x: ThreadId, id: TxId, p: ProcId, target: Option<ThreadId>)
      requires Valid() && x in threads && threads[x].err == Ok && id !in txs && MayCall(calls, x)
      requires target.Some? ==> x in calls.site && Last(calls.chains[calls.site[x]].path, target.value, |calls.chains[calls.site[x]].path|) >= 0
      modifies this
      ensures Recorded(txs, history) && (target != Some(x) ==> Valid())
      ensures calls == Sent(old(calls), id, x)
      ensures history == old(history).(sent := old(history).sent[id := old(threads[x].stack)])
      ensures threads == old(threads)[x := old(threads[x]).(stack := Some(id))]
      ensures txs == old(txs)[id := Tx(Some(x), old(threads[x].stack), target, None,
                                       if target.Some? then ThreadQueue(target.value) else ProcQueue(p))]
    {
      var t := Tx(Some(x), threads[x].stack, target, None, if target.Some? then ThreadQueue(target.value) else ProcQueue(p));
      if target != Some(x) {
        SendKeeps(threads, txs, calls, id, x, t);
      }
      RecordSent(txs, history, id, t);
      calls := Sent(calls, id, x);
      history := history.(sent := history.sent[id := threads[x].stack]);
      threads := threads[x := threads[x].(stack := Some(id))];
      txs := txs[id := t];
    }

    static lemma RecordSent(txs: map<TxId, Tx>, h: History, id: TxId, t: Tx)
      requires Recorded(txs, h) && id !in txs && !t.place.Delivered?
      ensures Recorded(txs[id := t], h.(sent := h.sent[id := t.fromParent]))
    {
      var txs', h' := txs[id := t], h.(sent := h.sent[id := t.fromParent]);
      forall d | d in txs'
        ensures RecordAt(txs', h', d)
      {
        assert d != id ==> RecordAt(txs, h, d);
      }
    }

    /**
     BR_TRANSACTION: `x` takes a call queued for itself, or one queued for its
     process when it has nothing on its own stack.
     */
    method Deliver(x: ThreadId, id: TxId)
      requires Valid() && x in threads && id in txs
      requires txs[id].place == ThreadQueue(x) || (txs[id].place == ProcQueue(threads[x].proc) && threads[x].stack == None)
      modifies this
      ensures Valid()
      ensures id in old(calls.home) && old(calls.home[id].root) in old(calls.chains)
      ensures calls == DeliveredTo(old(calls), old(calls.home[id].root), x)
      ensures threads == old(threads)[x := old(threads[x]).(stack := Some(id))]
      ensures txs == old(txs)[id := Tx(old(txs[id].from), old(txs[id].fromParent), Some(x), old(threads[x].stack), Delivered)]
      ensures history == old(history).(taken := old(history).taken[id := old(threads[x].stack)])
    {
      DeliverKeeps(threads, txs, calls, id, x);
      RecordTaken(txs, history, id, x, threads[x].stack);
      calls := DeliveredTo(calls, calls.home[id].root, x);
      history := history.(taken := history.taken[id := threads[x].stack]);
      var t := Taken(txs[id], x, threads[x].stack);
      threads := threads[x := threads[x].(stack := Some(id))];
      txs := txs[id := t];
    }

    static lemma RecordTaken(txs: map<TxId, Tx>, h: History, id: TxId, x: ThreadId, stack: Option<TxId>)
      requires Recorded(txs, h) && id in txs
      ensures Recorded(txs[id := Taken(txs[id], x, stack)], h.(taken := h.taken[id := stack]))
    {
      var txs', h' := txs[id := Taken(txs[id], x, stack)], h.(taken := h.taken[id := stack]);
      forall d | d in txs'
        ensures RecordAt(txs', h', d)
      {
        assert RecordAt(txs, h, d);
      }
    }

    /** Removing `id` from the stack of its live caller, or from nowhere. */
    method PopTransaction(target: Option<ThreadId>, id: TxId)
      requires id in txs
      requires target.Some? ==> target.value in threads
      requires target.Some? ==> threads[target.value].stack == Some(id) && txs[id].from == target
      modifies this`threads, this`txs
      ensures txs == old(txs) - {id}
      ensures threads == if target.Some? then old(threads)[target.value := old(threads[target.value]).(stack := old(txs[id].fromParent))]
                         else old(threads)
    {
      if target.Some? {
        threads := threads[target.value := threads[target.value].(stack := txs[id].fromParent)];
      }
      txs := txs - {id};
    }

    /** Failing call `id` for its live caller `f`, whose older error moves to the second slot. */
    method FailCaller(f: ThreadId, id: TxId, code: Status)
      requires f in threads && id in txs
      requires threads[f].stack == Some(id) && txs[id].from == Some(f) && threads[f].err2 == Ok
      modifies this`threads, this`txs
      ensures txs == old(txs) - {id}
      ensures threads == old(threads)[f := old(threads[f]).(
                           stack := old(txs[id].fromParent), err := code, err2 := old(threads[f].err))]
    {
      if threads[f].err != Ok && threads[f].err2 == Ok {
        threads := threads[f := threads[f].(err2 := threads[f].err, err := Ok)];
      }
      // a caller with both slots taken would be left with neither reply nor error
      assert threads[f].err == Ok;
      PopTransaction(Some(f), id);
      threads := threads[f := threads[f].(err := code)];
    }

    /** The orphaned innermost call of chain `r`, whose caller lives, ends with an error for that caller. */
    method FailLive(id: TxId, code: Status, ghost r: TxId)
      requires Inv(threads, txs, calls, Some(r)) && r in calls.chains && code != Ok
      requires var c := calls.chains[r];
               |c.txs| >= 1 && |c.path| == |c.txs| && c.txs[|c.txs| - 1] == id && c.path[|c.txs| - 1].Some?
      modifies this`threads, this`txs, this`calls
      ensures Inv(threads, txs, calls, None) && calls == Ended(old(calls), r) && txs == old(txs) - {id}
      ensures threads == Blamed(old(threads), old(calls.chains[r]), code)
    {
      CallerWaits(threads, txs, calls, r);
      var f := txs[id].from.value;
      PopLiveKeeps(threads, txs, calls, r, code, threads[f].err);
      FailCaller(f, id, code);
      calls := Ended(calls, r);
    }

    /** The orphaned innermost call of chain `r`, whose caller is gone, ends; the call around it, if any, is orphaned in turn. */
    method FailDead(id: TxId, ghost r: TxId)
      requires Inv(threads, txs, calls, Some(r)) && r in calls.chains
      requires var c := calls.chains[r];
               |c.txs| >= 1 && |c.path| == |c.txs| && c.txs[|c.txs| - 1] == id && c.path[|c.txs| - 1].None?
      modifies this`txs, this`calls, this`threads
      ensures Inv(threads, txs, calls, StillOrphan(old(calls), r)) && calls == Ended(old(calls), r)
      ensures txs == old(txs) - {id} && threads == old(threads)
    {
      PopDeadKeeps(threads, txs, calls, r);
      CallerWaits(threads, txs, calls, r);
      PopTransaction(None, id);
      calls := Ended(calls, r);
    }

    /** One round of `binder_send_failed_reply`, at the `m`th call of chain `c`. */
    method FailOne(t: TxId, code: Status, ghost r: TxId, ghost was: Calls, ghost before: map<TxId, Tx>, ghost m: nat) returns (next: Option<TxId>)
      requires Inv(threads, txs, calls, Some(r)) && code != Ok
      requires r in was.chains && Unwinding(was.chains, before, r, m, calls.chains, txs) && t == was.chains[r].txs[m - 1]
      modifies this`threads, this`txs, this`calls
      ensures next.Some? ==>
                && m > 1 && Unwinding(was.chains, before, r, m - 1, calls.chains, txs) && next.value == was.chains[r].txs[m - 2]
                && Inv(threads, txs, calls, Some(r)) && threads == old(threads)
      ensures next.None? ==>
                && Inv(threads, txs, calls, None)
                && calls.chains == Unwound(was.chains, r) && txs == before - Lost(was.chains[r])
                && threads == Blamed(old(threads), was.chains[r], code)
    {
      CallerWaits(threads, txs, calls, r);
      var target := txs[t].from;
      next := if target.Some? then None else txs[t].fromParent;
      if next.None? {
        UnwindStop(was.chains, before, r, m, calls, txs, threads, code);
      } else {
        UnwindOn(was.chains, before, r, m, calls, txs);
      }
      if target.Some? {
        FailLive(t, code, r);
      } else {
        FailDead(t, r);
      }
    }

    /**
     binder_send_failed_reply: the orphaned innermost call `id` of chain `r`
     fails, and so does every call around it whose caller has exited, up to the
     innermost live caller, which gets `code`.
     */
    method SendFailedReply(id: TxId, code: Status, ghost r: TxId)
      requires Inv(threads, txs, calls, Some(r)) && Recorded(txs, history) && r in calls.chains && code != Ok
      requires var c := calls.chains[r]; |c.txs| >= 1 && |c.path| == |c.txs| && c.txs[|c.txs| - 1] == id
      modifies this`threads, this`txs, this`calls
      ensures Valid() && id !in txs
      ensures calls.chains == Unwound(old(calls.chains), r)
      ensures txs == old(txs) - Lost(old(calls.chains[r]))
      ensures threads == Blamed(old(threads), old(calls.chains[r]), code)
    {
      ghost var was, before := calls, txs;
      ghost var m := |was.chains[r].txs|;
      UnwindStart(was.chains, before, r);
      var next := Some(id);
      while next.Some?
        invariant if next.Some?
                  then
                    && 1 <= m && Unwinding(was.chains, before, r, m, calls.chains, txs) && next.value == was.chains[r].txs[m - 1]
                    && Inv(threads, txs, calls, Some(r)) && threads == old(threads)
                  else
                    && Inv(threads, txs, calls, None)
                    && calls.chains == Unwound(was.chains, r) && txs == before - Lost(was.chains[r])
                    && threads == Blamed(old(threads), was.chains[r], code)
        decreases m
      {
        next := FailOne(next.value, code, r, was, before, m);
        m := m - 1;
      }
      RecordedKept(before, txs, history);
    }

    /** `x` serves the innermost call of its chain. */
    ghost predicate Serves(x: ThreadId)
      reads this
    {
      x in calls.site && MayCall(calls, x)
    }

    /**
     BC_REPLY.  `fail` is the code of any failure after the caller has been found.
     An accepted reply takes the call off both stacks, which are then what they
     were when the call was sent and when it was delivered; a failed one gives the
     error to the innermost live caller.
     */
    method Reply(x: ThreadId, fail: Option<Status>) returns (accepted: bool)
      requires Valid() && x in threads && threads[x].err == Ok && fail != Some(Ok)
      modifies this`threads, this`txs, this`calls
      ensures Valid()
      ensures !old(Serves(x)) ==>
                && !accepted && txs == old(txs) && calls == old(calls)
                && threads == old(threads)[x := old(threads[x]).(err := FailedReply)]
      ensures old(Serves(x)) ==>
                && old(threads[x].stack.Some?) && old(threads[x].stack.value in txs)
                && (accepted <==> fail == None && old(txs[threads[x].stack.value].from.Some?))
      ensures accepted ==>
                var id := old(threads[x].stack.value);
                var f := old(txs[id].from.value);
                && f in old(threads) && f != x && old(threads[f].stack) == Some(id)
                && id in history.sent && id in history.taken && txs == old(txs) - {id}
                && threads == old(threads)[x := old(threads[x]).(stack := history.taken[id])]
                                          [f := old(threads[f]).(stack := history.sent[id])]
      ensures old(Serves(x)) && !accepted ==>
                var id := old(threads[x].stack.value);
                var r := old(calls.site[x]);
                var chains := LetGo(old(calls), r, x).chains;
                && id in history.taken && calls.chains == Unwound(chains, r) && txs == old(txs) - Lost(chains[r])
                && threads == Blamed(old(threads)[x := old(threads[x]).(stack := history.taken[id], err := Complete)], chains[r],
                                     if old(txs[id].from.None?) then DeadReply else fail.value)
    {
      assert ThreadOk(threads[x], x, calls);
      if threads[x].stack == None {
        FailCommand(x, FailedReply);
        return false;
      }
      var id := threads[x].stack.value;
      ghost var r := calls.site[x];
      assert ChainAt(txs, calls.chains, None, r);
      TopServedIffActive(txs, calls.chains[r], r, x);
      if txs[id].toThread != Some(x) {
        FailCommand(x, FailedReply);
        return false;
      }
      ServedCall(threads, txs, calls, x);
      assert RecordAt(txs, history, id);
      if txs[id].from.Some? && fail.None? {
        Answer(x, id, r);
        return true;
      }
      Refuse(x, id, if txs[id].from.None? then DeadReply else fail.value, r);
      return false;
    }

    /** What the records say of the call that `x` serves. */
    static lemma ServedCall(threads: map<ThreadId, Thread>, txs: map<TxId, Tx>, g: Calls, x: ThreadId)
      requires Inv(threads, txs, g, None) && x in threads && x in g.site && MayCall(g, x)
      ensures var c := g.chains[g.site[x]];
              && |c.txs| > 0 && threads[x].stack == Some(c.txs[|c.txs| - 1]) && c.txs[|c.txs| - 1] in txs
              && txs[c.txs[|c.txs| - 1]].place.Delivered? && txs[c.txs[|c.txs| - 1]].from == c.path[|c.txs| - 1]
              && c.path[|c.txs| - 1] != Some(x)
    {
      var r := g.site[x];
      var c := g.chains[r];
      assert ChainAt(txs, g.chains, None, r) && ThreadOk(threads[x], x, g);
      CallerStack(threads, g, x);
      assert Linked(txs, c, |c.txs| - 1) && CallsAnother(c.path, |c.txs| - 1);
    }

    /** `x` answers call `id`, for which its caller waits. */
    method Answer(x: ThreadId, id: TxId, ghost r: TxId)
      requires Valid() && x in threads && threads[x].err == Ok && Serves(x) && r == calls.site[x]
      requires threads[x].stack == Some(id) && id in txs && txs[id].from.Some? && txs[id].place.Delivered?
      requires var c := calls.chains[r];
               |c.txs| > 0 && c.txs[|c.txs| - 1] == id && txs[id].from == c.path[|c.txs| - 1] && c.path[|c.txs| - 1] != Some(x)
      modifies this`threads, this`txs, this`calls
      ensures Valid()
      ensures var f := old(txs[id].from.value);
              && f in old(threads) && old(threads[f].stack) == Some(id) && txs == old(txs) - {id}
              && threads == old(threads)[x := old(threads[x]).(stack := old(txs[id].toParent))]
                                        [f := old(threads[f]).(stack := old(txs[id].fromParent))]
    {
      assert ThreadOk(threads[x], x, calls);
      var f := txs[id].from.value;
      LetGoKeeps(threads, txs, calls, r, x, Ok);
      RecordedKept(txs, txs - {id}, history);
      threads := threads[x := threads[x].(stack := txs[id].toParent)];
      calls := LetGo(calls, r, x);
      CallerWaits(threads, txs, calls, r);
      // the reply's target is waiting for exactly this call
      assert threads[f].stack == Some(id);
      PopLiveKeeps(threads, txs, calls, r, threads[f].err, threads[f].err2);
      PopTransaction(Some(f), id);
      calls := Ended(calls, r);
    }

    /** The answer of `x` cannot be given: the call fails with `code`. */
    method Refuse(x: ThreadId, id: TxId, code: Status, ghost r: TxId)
      requires Valid() && x in threads && threads[x].err == Ok && Serves(x) && r == calls.site[x] && code != Ok
      requires threads[x].stack == Some(id) && id in txs && txs[id].place.Delivered?
      requires var c := calls.chains[r]; |c.txs| > 0 && c.txs[|c.txs| - 1] == id
      modifies this`threads, this`txs, this`calls
      ensures Valid()
      ensures var chains := LetGo(old(calls), r, x).chains;
              && calls.chains == Unwound(chains, r) && txs == old(txs) - Lost(chains[r])
              && threads == Blamed(old(threads)[x := old(threads[x]).(stack := old(txs[id].toParent), err := Complete)], chains[r], code)
    {
      // only this thread's own command could have set its error
      assert ThreadOk(threads[x], x, calls);
      LetGoKeeps(threads, txs, calls, r, x, Complete);
      threads := threads[x := threads[x].(stack := txs[id].toParent, err := Complete)];
      calls := LetGo(calls, r, x);
      SendFailedReply(id, code, r);
    }

    /**
     The walk over an exiting thread's stack, which removes the thread from every
     transaction it sent or was serving.
     */
    method ForgetThread(x: ThreadId)
      requires Valid() && x in calls.site
      modifies this`txs
      ensures txs == Forgotten(old(txs), calls, calls.site[x], x)
    {
      ghost var i := WalkStart(threads, txs, calls, x);
      ghost var r, was := calls.site[x], txs;
      ghost var c := calls.chains[r];
      var t := threads[x].stack;
      while t.Some?
        invariant WalkAt(c, x, i, t) && txs == ForgottenFrom(was, calls, r, x, i + 1)
        decreases i
      {
        t, i := ForgetOne(x, t.value, was, r, i);
      }
      assert ForgottenFrom(was, calls, r, x, 0) == Forgotten(was, calls, r, x);
    }

    /** One step of the walk, at call `i` of the chain: the thread sent it or serves it. */
    method ForgetOne(x: ThreadId, id: TxId, ghost was: map<TxId, Tx>, ghost r: TxId, ghost i: nat) returns (t: Option<TxId>, ghost j: int)
      requires Homes(was, calls) && r in calls.chains && ChainOk(was, calls.chains[r], r, false)
      requires WalkAt(calls.chains[r], x, i, Some(id)) && txs == ForgottenFrom(was, calls, r, x, i + 1)
      modifies this`txs
      ensures j < i && WalkAt(calls.chains[r], x, j, t) && txs == ForgottenFrom(was, calls, r, x, j + 1)
    {
      ghost var c := calls.chains[r];
      if i + 1 < |c.path| && c.path[i + 1] == Some(x) {
        WalkServed(was, calls, r, x, i);
      } else {
        WalkSent(was, calls, r, x, i);
      }
      if txs[id].toThread == Some(x) {
        t := txs[id].toParent;
        txs := txs[id := txs[id].(toThread := None)];
        j := Last(c.path, x, i + 1);
      } else if txs[id].from == Some(x) {
        t := txs[id].fromParent;
        txs := txs[id := txs[id].(from := None)];
        j := i - 1;
      } else {
        t, j := None, -1;
        assert false;
      }
    }

    /**
     binder_free_thread: the thread leaves every record; if it held the innermost
     call of its chain, being served or queued, that call fails.
     */
    method FreeThread(x: ThreadId)
      requires Valid() && x in threads
      modifies this`threads, this`txs, this`calls
      ensures Valid()
      ensures old(threads[x].stack).None? ==> threads == old(threads) - {x} && txs == old(txs) && calls == old(calls)
      ensures old(threads[x].stack).Some? ==> Left(old(threads), old(txs), old(calls), x, threads, txs, calls)
    {
      assert ThreadOk(threads[x], x, calls);
      if threads[x].stack == None {
        IdleExitKeeps(threads, txs, calls, x);
        threads := threads - {x};
        return;
      }
      ghost var r, c := calls.site[x], calls.chains[calls.site[x]];
      var top := threads[x].stack.value;
      assert ChainAt(txs, calls.chains, None, r);
      TopServedIffActive(txs, c, r, x);
      var sendReply := txs[top].toThread == Some(x);
      ExitKeeps(threads, txs, calls, r, x);
      RecordedKept(txs, Forgotten(txs, calls, r, x), history);
      ghost var held := Holds(txs[c.txs[|c.txs| - 1]], c, x);
      ForgetThread(x);
      threads := threads - {x};
      calls := Exited(calls, r, x, held);
      if sendReply {
        SendFailedReply(top, DeadReply, r);
        ReleaseThreadQueue(x, r, None);
      } else {
        ReleaseThreadQueue(x, r, if held then Some(r) else None);
      }
    }

    /** binder_release_work on the queue of the exited thread `x`, in which only an orphaned call can be. */
    method ReleaseThreadQueue(x: ThreadId, ghost r: TxId, ghost orphan: Option<TxId>)
      requires Inv(threads, txs, calls, orphan) && Recorded(txs, history) && x !in threads
      requires orphan == None || orphan == Some(r)
      requires orphan == Some(r) ==>
                 && r in calls.chains
                 && var c := calls.chains[r];
                 && |c.txs| >= 1 && |c.path| == |c.txs| && c.txs[|c.txs| - 1] in txs
                 && txs[c.txs[|c.txs| - 1]].place == ThreadQueue(x)
      modifies this`threads, this`txs, this`calls
      ensures Valid()
      ensures orphan == None ==> threads == old(threads) && txs == old(txs) && calls == old(calls)
      ensures orphan == Some(r) ==>
                && calls.chains == Unwound(old(calls.chains), r)
                && threads == Blamed(old(threads), old(calls.chains[r]), DeadReply)
                && txs == old(txs) - Lost(old(calls.chains[r]))
    {
      var queued := set id | id in txs && txs[id].place == ThreadQueue(x);
      assert orphan == Some(r) ==> calls.chains[r].txs[|calls.chains[r].txs| - 1] in queued;
      ghost var pending := orphan;
      while queued != {}
        invariant Inv(threads, txs, calls, pending) && Recorded(txs, history) && x !in threads
        invariant queued == set id | id in txs && txs[id].place == ThreadQueue(x)
        invariant pending == orphan ==> threads == old(threads) && txs == old(txs) && calls == old(calls)
        invariant pending != orphan ==>
                    && pending == None && orphan == Some(r)
                    && calls.chains == Unwound(old(calls.chains), r)
                    && threads == Blamed(old(threads), old(calls.chains[r]), DeadReply)
                    && txs == old(txs) - Lost(old(calls.chains[r]))
        invariant pending.Some? ==> queued != {}
        decreases pending.Some?
      {
        var id :| id in queued;
        OnlyOrphanQueued(threads, txs, calls, pending, x, id);
        SendFailedReply(id, DeadReply, r);
        pending := None;
        queued := set id | id in txs && txs[id].place == ThreadQueue(x);
      }
    }

    /**
     binder_release_work on the queue of a process that has no threads left: each
     chain whose innermost call is queued there fails, and nothing else changes.
     */
    method ReleaseProcQueue(p: ProcId)
      requires Valid()
      modifies this`threads, this`txs, this`calls
      ensures Valid()
      ensures var hit := HitBy(old(txs), old(calls.chains), p);
              && calls.chains == UnwoundAll(old(calls.chains), hit)
              && txs == Spared(old(txs), old(calls.chains), hit)
              && threads == BlamedAll(old(threads), old(calls), hit)
    {
      ghost var hit := {};
      HitNone(threads, txs, calls);
      var queued := set id | id in txs && txs[id].place == ProcQueue(p);
      while queued != {}
        invariant Valid() && Failing(old(threads), old(txs), old(calls), p, hit, threads, txs, calls)
        invariant queued == set id | id in txs && txs[id].place == ProcQueue(p)
        decreases queued
      {
        var id :| id in queued;
        ghost var r := ReleaseQueued(id, p, old(threads), old(txs), old(calls), hit);
        hit := hit + {r};
        var rest := set id | id in txs && txs[id].place == ProcQueue(p);
        assert id !in rest;
        queued := rest;
      }
      assert forall id :: id in txs && txs[id].place == ProcQueue(p) ==> id in queued;
      HitAll(old(txs), old(calls.chains), p, hit, txs, calls);
    }

    /** One call of the queue fails, and with it its chain. */
    method ReleaseQueued(id: TxId, p: ProcId, ghost threads0: map<ThreadId, Thread>, ghost txs0: map<TxId, Tx>, ghost g0: Calls,
                         ghost hit: set<TxId>) returns (ghost r: TxId)
      requires Valid() && id in txs && txs[id].place == ProcQueue(p) && Sites(threads0, g0)
      requires Failing(threads0, txs0, g0, p, hit, threads, txs, calls)
      modifies this`threads, this`txs, this`calls
      ensures Valid() && Failing(threads0, txs0, g0, p, hit + {r}, threads, txs, calls)
      ensures id !in txs && txs.Keys <= old(txs.Keys) && forall x :: x in txs ==> txs[x] == old(txs[x])
    {
      QueuedIsLeaf(txs, calls, None, id);
      r := calls.home[id].root;
      NotYetHit(txs0, g0.chains, p, hit, txs, calls, r);
      HitOne(threads0, txs0, g0, p, hit, r);
      QueuedLetGo(threads, txs, calls, r);
      SendFailedReply(id, DeadReply, r);
    }
  }
}
