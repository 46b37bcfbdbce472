/** What each elementary change of the call structure does to the invariant. */
module CallSteps {
  import opened Wrappers
  import opened CallChains

  lemma {:induction false} LastAgrees(p: seq<Option<ThreadId>>, q: seq<Option<ThreadId>>, x: ThreadId, n: nat)
    requires n <= |p| && n <= |q|
    requires forall k :: 0 <= k < n ==> (p[k] == Some(x) <==> q[k] == Some(x))
    ensures Last(p, x, n) == Last(q, x, n)
  {
    if n > 0 {
      LastAgrees(p, q, x, n - 1);
    }
  }

  /** A thread's stack top is addressed to it exactly when it is the callee of the innermost call. */
  lemma TopServedIffActive(txs: map<TxId, Tx>, c: Chain, r: TxId, x: ThreadId)
    requires ChainOk(txs, c, r, false)
    requires Last(c.path, x, |c.path|) >= 0
    ensures Top(c, x).Some? && Top(c, x).value in txs
    ensures txs[Top(c, x).value].toThread == Some(x) <==> !Waiting(c, x)
    ensures !Waiting(c, x) ==> Delivering(c) && c.path[|c.txs|] == Some(x) && Top(c, x) == Some(c.txs[|c.txs| - 1])
  {
    var j := Last(c.path, x, |c.path|);
    if j < |c.txs| {
      assert Linked(txs, c, j);
      assert j + 1 < |c.path| ==> CallsAnother(c.path, j);
    } else {
      assert Linked(txs, c, j - 1);
    }
  }

  // --- one chain -----------------------------------------------------------

  /** The chain with a new call `id` made by the current callee. */
  function Extended(c: Chain, id: TxId): Chain {
    Chain(c.txs + [id], c.path)
  }

  /** The chain whose queued innermost call has been taken by `x`. */
  function Served(c: Chain, x: ThreadId): Chain {
    Chain(c.txs, c.path + [Some(x)])
  }

  /** The chain whose callee has let go of the innermost call. */
  function Detached(c: Chain): Chain
    requires |c.txs| <= |c.path|
  {
    Chain(c.txs, c.path[..|c.txs|])
  }

  /** The chain without its innermost call, back with that call's caller. */
  function Returned(c: Chain): Chain
    requires 1 <= |c.txs| <= |c.path|
  {
    Chain(c.txs[..|c.txs| - 1], c.path[..|c.txs|])
  }

  /** A record depends only on the part of its chain up to its own callee. */
  lemma LinkKept(t: Tx, c: Chain, d: Chain, i: nat)
    requires i < |c.txs| <= |c.path| <= |c.txs| + 1 && i < |d.txs| <= |d.path| <= |d.txs| + 1
    requires i + 1 < |d.path| ==> i + 1 < |c.path|
    requires forall k :: 0 <= k <= i ==> c.txs[k] == d.txs[k]
    requires forall k :: 0 <= k <= i + 1 && k < |d.path| ==> c.path[k] == d.path[k]
    requires Link(t, c, i)
    ensures Link(t, d, i)
  {
    if i + 1 < |d.path| && d.path[i + 1].Some? {
      LastAgrees(c.path, d.path, d.path[i + 1].value, i + 1);
    }
  }

  lemma ExtendChain(txs: map<TxId, Tx>, c: Chain, r: TxId, id: TxId, t: Tx)
    requires ChainOk(txs, c, r, false) && Delivering(c) && id !in txs
    requires t.from == c.path[|c.txs|] && t.fromParent == Some(c.txs[|c.txs| - 1])
    requires Queueable(t, c)
    ensures ChainOk(txs[id := t], Extended(c, id), r, false)
  {
    var d, txs' := Extended(c, id), txs[id := t];
    forall i | 0 <= i < |d.txs| ensures Linked(txs', d, i) {
      if i < |c.txs| {
        assert Linked(txs, c, i);
        LinkKept(txs[c.txs[i]], c, d, i);
      }
    }
  }

  lemma StartChain(txs: map<TxId, Tx>, id: TxId, x: ThreadId)
    requires id in txs && txs[id].from == Some(x) && txs[id].fromParent == None
    requires txs[id].place.ProcQueue? && txs[id].toThread == None
    ensures ChainOk(txs, Chain([id], [Some(x)]), id, false)
  {
    assert Linked(txs, Chain([id], [Some(x)]), 0);
  }

  lemma ServeChain(txs: map<TxId, Tx>, c: Chain, r: TxId, x: ThreadId, t: Tx)
    requires ChainOk(txs, c, r, false) && !Delivering(c)
    requires c.path[|c.txs| - 1] != Some(x)
    requires forall i :: 0 <= i < |c.txs| - 1 ==> c.txs[i] != c.txs[|c.txs| - 1]
    requires t == Taken(txs[c.txs[|c.txs| - 1]], x, Top(c, x))
    ensures ChainOk(txs[c.txs[|c.txs| - 1] := t], Served(c, x), r, false)
  {
    var n := |c.txs|;
    var d, txs' := Served(c, x), txs[c.txs[n - 1] := t];
    forall i | 0 <= i < n ensures Linked(txs', d, i) {
      assert Linked(txs, c, i);
      if i < n - 1 {
        LinkKept(txs[c.txs[i]], c, d, i);
      } else {
        LastAgrees(d.path, c.path, x, n);
      }
    }
    forall i | 0 <= i < n ensures CallsAnother(d.path, i) {
      assert i < n - 1 ==> CallsAnother(c.path, i);
    }
  }

  lemma DetachChain(txs: map<TxId, Tx>, c: Chain, r: TxId)
    requires ChainOk(txs, c, r, false)
    ensures ChainOk(txs, Detached(c), r, true)
  {
    var d := Detached(c);
    forall i | 0 <= i < |c.txs| ensures Linked(txs, d, i) {
      assert Linked(txs, c, i);
      LinkKept(txs[c.txs[i]], c, d, i);
    }
    forall i | 0 <= i < |d.path| - 1 ensures CallsAnother(d.path, i) {
      assert CallsAnother(c.path, i);
    }
  }

  /** Dropping the innermost call leaves the outer ones linked as before. */
  lemma ReturnChain(txs: map<TxId, Tx>, c: Chain, r: TxId, txs': map<TxId, Tx>)
    requires ChainOk(txs, c, r, true) && |c.txs| > 1
    requires forall i :: 0 <= i < |c.txs| - 1 ==> c.txs[i] in txs && c.txs[i] in txs' && txs'[c.txs[i]] == txs[c.txs[i]]
    ensures c.path[|c.txs| - 1].Some? ==> ChainOk(txs', Returned(c), r, false)
    ensures c.path[|c.txs| - 1].None? ==> ChainOk(txs', Detached(Returned(c)), r, true)
  {
    var n := |c.txs|;
    var d := if c.path[n - 1].Some? then Returned(c) else Detached(Returned(c));
    forall i | 0 <= i < n - 1 ensures Linked(txs', d, i) {
      assert Linked(txs, c, i);
      LinkKept(txs[c.txs[i]], c, d, i);
    }
    forall i | 0 <= i < |d.path| - 1 ensures CallsAnother(d.path, i) {
      assert CallsAnother(c.path, i);
    }
  }

  /** The path once `x` has exited. */
  function Killed(path: seq<Option<ThreadId>>, x: ThreadId): (p: seq<Option<ThreadId>>)
    ensures |p| == |path|
    ensures forall i :: 0 <= i < |p| ==> p[i] == (if path[i] == Some(x) then None else path[i])
  {
    seq(|path|, i requires 0 <= i < |path| => if path[i] == Some(x) then None else path[i])
  }

  /** A transaction with every reference to the exited thread `x` removed. */
  function Forget(t: Tx, x: ThreadId): Tx {
    t.(from := if t.from == Some(x) then None else t.from,
       toThread := if t.place.Delivered? && t.toThread == Some(x) then None else t.toThread)
  }

  /** `x` holds the innermost call, so its exit leaves that call to nobody. */
  predicate Holds(t: Tx, c: Chain, x: ThreadId)
    requires |c.txs| <= |c.path|
  {
    if Delivering(c) then c.path[|c.txs|] == Some(x) else t.place == ThreadQueue(x)
  }

  function AfterExit(c: Chain, x: ThreadId, held: bool): Chain
    requires |c.txs| <= |c.path|
  {
    var d := Chain(c.txs, Killed(c.path, x));
    if held then Detached(d) else d
  }

  lemma KillLink(t: Tx, c: Chain, x: ThreadId, i: nat)
    requires i < |c.txs| <= |c.path| <= |c.txs| + 1
    requires Link(t, c, i)
    ensures Link(Forget(t, x), Chain(c.txs, Killed(c.path, x)), i)
  {
    var d := Chain(c.txs, Killed(c.path, x));
    if i + 1 < |c.path| && d.path[i + 1].Some? {
      LastAgrees(c.path, d.path, d.path[i + 1].value, i + 1);
    }
  }

  lemma KillChain(txs: map<TxId, Tx>, c: Chain, r: TxId, x: ThreadId, txs': map<TxId, Tx>)
    requires ChainOk(txs, c, r, false)
    requires forall i :: 0 <= i < |c.txs| ==>
               c.txs[i] in txs && c.txs[i] in txs' && txs'[c.txs[i]] == Forget(txs[c.txs[i]], x)
    ensures var held := Holds(txs[c.txs[|c.txs| - 1]], c, x);
            ChainOk(txs', AfterExit(c, x, held), r, held)
  {
    var n := |c.txs|;
    var leaf := txs[c.txs[n - 1]];
    var held := Holds(leaf, c, x);
    var d, e := Chain(c.txs, Killed(c.path, x)), AfterExit(c, x, held);
    forall i | 0 <= i < n ensures Linked(txs', e, i) {
      assert Linked(txs, c, i);
      KillLink(txs[c.txs[i]], c, x, i);
      LinkKept(txs'[c.txs[i]], d, e, i);
    }
    forall i | 0 <= i < |e.path| - 1 ensures CallsAnother(e.path, i) {
      assert CallsAnother(c.path, i);
    }
    if !held && leaf.place.ThreadQueue? {
      LastAgrees(c.path, e.path, leaf.place.thread, |c.path|);
    }
  }

  // --- the whole structure -------------------------------------------------

  /** A chain none of whose records changes stays as it was. */
  lemma ChainKept(txs: map<TxId, Tx>, c: Chain, q: TxId, txs': map<TxId, Tx>)
    requires ChainOk(txs, c, q, false)
    requires forall id :: id in c.txs && id in txs ==> id in txs' && txs'[id] == txs[id]
    ensures ChainOk(txs', c, q, false)
  {
    forall i | 0 <= i < |c.txs| ensures Linked(txs', c, i) {
      assert Linked(txs, c, i);
    }
  }

  /** Every chain but `r` is in order. */
  predicate OthersOk(txs: map<TxId, Tx>, chains: map<TxId, Chain>, r: TxId) {
    forall q {:trigger ChainAt(txs, chains, None, q)} :: q in chains && q != r ==> ChainAt(txs, chains, None, q)
  }

  /** Changing the records of chain `r` and of no other keeps the other chains. */
  lemma OtherChains(txs: map<TxId, Tx>, g: Calls, o: Option<TxId>, txs': map<TxId, Tx>, r: TxId)
    requires Chains(txs, g.chains, o) && Homes(txs, g)
    requires o == None || o == Some(r)
    requires forall id :: id in txs && g.home[id].root != r ==> id in txs' && txs'[id] == txs[id]
    ensures OthersOk(txs', g.chains, r)
  {
    forall q | q in g.chains && q != r ensures ChainAt(txs', g.chains, None, q) {
      assert ChainAt(txs, g.chains, o, q);
      assert ChainPlaced(g, q);
      ChainKept(txs, g.chains[q], q, txs');
    }
  }

  /** One chain in place of another, with all other chains in order. */
  lemma ReplaceChain(txs: map<TxId, Tx>, chains: map<TxId, Chain>, r: TxId, c: Chain, o: Option<TxId>)
    requires OthersOk(txs, chains, r)
    requires o == None || o == Some(r)
    requires ChainOk(txs, c, r, o == Some(r))
    ensures Chains(txs, chains[r := c], o)
  {
    var chains' := chains[r := c];
    forall q | q in chains'
      ensures ChainAt(txs, chains', o, q)
    {
      assert q != r ==> ChainAt(txs, chains, None, q);
    }
  }

  lemma RemoveChain(txs: map<TxId, Tx>, chains: map<TxId, Chain>, r: TxId)
    requires OthersOk(txs, chains, r)
    ensures Chains(txs, chains - {r}, None)
  {
    var chains' := chains - {r};
    forall q | q in chains'
      ensures ChainAt(txs, chains', None, q)
    {
      assert ChainAt(txs, chains, None, q);
    }
  }

  function SendRoot(g: Calls, id: TxId, x: ThreadId): TxId {
    if x in g.site then g.site[x] else id
  }

  /** `x` may start a synchronous call: it is idle, or serves the innermost call of its chain. */
  predicate MayCall(g: Calls, x: ThreadId) {
    x in g.site ==>
      && g.site[x] in g.chains
      && var c := g.chains[g.site[x]];
      && Delivering(c) && c.path[|c.txs|] == Some(x)
  }

  function Sent(g: Calls, id: TxId, x: ThreadId): Calls
    requires MayCall(g, x)
  {
    var r := SendRoot(g, id, x);
    var c := if x in g.site then Extended(g.chains[r], id) else Chain([id], [Some(x)]);
    Calls(g.chains[r := c], g.home[id := Slot(r, |c.txs| - 1)], g.site[x := r])
  }

  lemma SendHomes(txs: map<TxId, Tx>, g: Calls, id: TxId, x: ThreadId, t: Tx)
    requires Homes(txs, g) && MayCall(g, x) && id !in txs && id !in g.chains
    ensures Homes(txs[id := t], Sent(g, id, x))
  {
    var g' := Sent(g, id, x);
    assert g'.home.Keys == txs[id := t].Keys;
    forall d | d in g'.home ensures HomeOk(g', d) {
      assert d != id ==> HomeOk(g, d);
    }
    forall q | q in g'.chains ensures ChainPlaced(g', q) {
      assert q in g.chains ==> ChainPlaced(g, q);
    }
  }

  lemma SendSites(threads: map<ThreadId, Thread>, g: Calls, id: TxId, x: ThreadId)
    requires Sites(threads, g) && MayCall(g, x) && id !in g.chains
    requires x in threads && threads[x].err == Ok
    ensures Sites(threads[x := threads[x].(stack := Some(id))], Sent(g, id, x))
  {
    var g' := Sent(g, id, x);
    var threads' := threads[x := threads[x].(stack := Some(id))];
    forall y | y in threads' ensures ThreadOk(threads'[y], y, g') {
      assert ThreadOk(threads[y], y, g);
    }
    forall q | q in g'.chains ensures PathPlaced(g', q) {
      assert q in g.chains ==> PathPlaced(g, q);
    }
  }

  /** A root is itself a live transaction. */
  lemma RootsLive(txs: map<TxId, Tx>, g: Calls, o: Option<TxId>)
    requires Chains(txs, g.chains, o)
    ensures forall q :: q in g.chains ==> q in txs
  {
    forall q | q in g.chains ensures q in txs {
      assert ChainAt(txs, g.chains, o, q);
      assert Linked(txs, g.chains[q], 0);
    }
  }

  lemma NestedChains(txs: map<TxId, Tx>, g: Calls, r: TxId, id: TxId, t: Tx)
    requires Chains(txs, g.chains, None) && Homes(txs, g)
    requires r in g.chains && Delivering(g.chains[r]) && id !in txs
    requires t.from == g.chains[r].path[|g.chains[r].txs|]
    requires Queueable(t, g.chains[r])
    requires |g.chains[r].txs| > 0 && t.fromParent == Some(g.chains[r].txs[|g.chains[r].txs| - 1])
    ensures Chains(txs[id := t], g.chains[r := Extended(g.chains[r], id)], None)
  {
    assert ChainAt(txs, g.chains, None, r);
    ExtendChain(txs, g.chains[r], r, id, t);
    OtherChains(txs, g, None, txs[id := t], r);
    ReplaceChain(txs[id := t], g.chains, r, Extended(g.chains[r], id), None);
  }

  lemma RootChains(txs: map<TxId, Tx>, g: Calls, id: TxId, x: ThreadId, t: Tx)
    requires Chains(txs, g.chains, None) && Homes(txs, g)
    requires id !in txs && t.from == Some(x)
    requires t.place.ProcQueue? && t.toThread == None && t.fromParent == None
    ensures Chains(txs[id := t], g.chains[id := Chain([id], [Some(x)])], None)
  {
    StartChain(txs[id := t], id, x);
    OtherChains(txs, g, None, txs[id := t], id);
    ReplaceChain(txs[id := t], g.chains, id, Chain([id], [Some(x)]), None);
  }

  /** A thread that may call has the innermost call of its chain on top of its stack. */
  lemma CallerStack(threads: map<ThreadId, Thread>, g: Calls, x: ThreadId)
    requires Sites(threads, g) && MayCall(g, x) && x in threads
    ensures if x in g.site then
              var c := g.chains[g.site[x]];
              && |c.txs| > 0 && threads[x].stack == Some(c.txs[|c.txs| - 1])
            else threads[x].stack == None
  {
    assert ThreadOk(threads[x], x, g);
  }

  lemma SendKeeps(threads: map<ThreadId, Thread>, txs: map<TxId, Tx>, g: Calls, id: TxId, x: ThreadId, t: Tx)
    requires Inv(threads, txs, g, None)
    requires x in threads && threads[x].err == Ok && id !in txs && MayCall(g, x)
    requires t.from == Some(x) && t.fromParent == threads[x].stack
    requires if x in g.site then Queueable(t, g.chains[g.site[x]]) else t.place.ProcQueue? && t.toThread == None
    ensures Inv(threads[x := threads[x].(stack := Some(id))], txs[id := t], Sent(g, id, x), None)
  {
    RootsLive(txs, g, None);
    CallerStack(threads, g, x);
    SendHomes(txs, g, id, x, t);
    SendSites(threads, g, id, x);
    if x in g.site {
      NestedChains(txs, g, g.site[x], id, t);
    } else {
      RootChains(txs, g, id, x, t);
    }
  }

  // --- delivering ----------------------------------------------------------

  /** The record of a queued call once `x`, whose stack top was `u`, has taken it. */
  function Taken(t: Tx, x: ThreadId, u: Option<TxId>): Tx {
    t.(toThread := Some(x), toParent := u, place := Delivered)
  }

  function DeliveredTo(g: Calls, r: TxId, x: ThreadId): Calls
    requires r in g.chains
  {
    Calls(g.chains[r := Served(g.chains[r], x)], g.home, g.site[x := r])
  }

  /** A queued call is the innermost one of its chain. */
  lemma QueuedIsLeaf(txs: map<TxId, Tx>, g: Calls, o: Option<TxId>, id: TxId)
    requires Chains(txs, g.chains, o) && Homes(txs, g)
    requires id in txs && !txs[id].place.Delivered?
    ensures id in g.home && g.home[id].root in g.chains
    ensures var c := g.chains[g.home[id].root];
            |c.txs| > 0 && c.txs[|c.txs| - 1] == id && |c.path| == |c.txs|
  {
    assert HomeOk(g, id);
    var r, i := g.home[id].root, g.home[id].pos;
    assert ChainAt(txs, g.chains, o, r);
    assert Linked(txs, g.chains[r], i);
  }

  lemma DeliverSites(threads: map<ThreadId, Thread>, g: Calls, r: TxId, x: ThreadId)
    requires Sites(threads, g) && r in g.chains && x in threads
    requires x in g.site ==> g.site[x] == r
    requires |g.chains[r].txs| > 0 && |g.chains[r].path| == |g.chains[r].txs|
    ensures var c := g.chains[r];
            Sites(threads[x := threads[x].(stack := Some(c.txs[|c.txs| - 1]))], DeliveredTo(g, r, x))
  {
    var c, g' := g.chains[r], DeliveredTo(g, r, x);
    var n, d := |c.txs|, Served(c, x);
    var threads' := threads[x := threads[x].(stack := Some(c.txs[n - 1]))];
    forall y | y in threads' ensures ThreadOk(threads'[y], y, g') {
      assert ThreadOk(threads[y], y, g);
      if y in g.site && g.site[y] == r && y != x {
        LastAgrees(d.path, c.path, y, n);
      }
    }
    forall q | q in g'.chains ensures PathPlaced(g', q) {
      assert PathPlaced(g, q);
      if q != r {
        assert g'.chains[q] == g.chains[q];
      }
    }
  }

  lemma DeliverChains(txs: map<TxId, Tx>, g: Calls, r: TxId, x: ThreadId, t: Tx)
    requires Chains(txs, g.chains, None) && Homes(txs, g)
    requires r in g.chains
    requires var c := g.chains[r];
             && |c.txs| > 0 && |c.path| == |c.txs| && c.path[|c.txs| - 1] != Some(x) && c.txs[|c.txs| - 1] in txs
             && t == Taken(txs[c.txs[|c.txs| - 1]], x, Top(c, x))
    ensures var c := g.chains[r];
            Chains(txs[c.txs[|c.txs| - 1] := t], g.chains[r := Served(c, x)], None)
  {
    var c := g.chains[r];
    var id := c.txs[|c.txs| - 1];
    assert ChainAt(txs, g.chains, None, r);
    assert ChainPlaced(g, r);
    ServeChain(txs, c, r, x, t);
    OtherChains(txs, g, None, txs[id := t], r);
    ReplaceChain(txs[id := t], g.chains, r, Served(c, x), None);
  }

  /** Who may take a queued call is not its caller, and its stack is what the chain says. */
  lemma TakerStack(threads: map<ThreadId, Thread>, txs: map<TxId, Tx>, g: Calls, r: TxId, x: ThreadId)
    requires Chains(txs, g.chains, None) && Sites(threads, g)
    requires r in g.chains && x in threads && !Delivering(g.chains[r])
    requires var c := g.chains[r]; |c.txs| > 0 && c.txs[|c.txs| - 1] in txs
    requires var t := txs[g.chains[r].txs[|g.chains[r].txs| - 1]];
             t.place == ThreadQueue(x) || (t.place.ProcQueue? && threads[x].stack == None)
    ensures var c := g.chains[r];
            |c.path| == |c.txs| && c.path[|c.txs| - 1] != Some(x) && threads[x].stack == Top(c, x)
    ensures x in g.site ==> g.site[x] == r
  {
    var c := g.chains[r];
    assert ChainAt(txs, g.chains, None, r);
    assert ThreadOk(threads[x], x, g);
    var j := Last(c.path, x, |c.path|);
    assert PathPlaced(g, r);
    if j >= 0 {
      assert c.path[j] == Some(x);
      assert g.site[x] == r;
    }
  }

  /** Homes depend only on which transactions each chain lists. */
  lemma RehomeKept(txs: map<TxId, Tx>, g: Calls, txs': map<TxId, Tx>, g': Calls)
    requires Homes(txs, g)
    requires txs'.Keys == txs.Keys && g'.home == g.home && g'.chains.Keys == g.chains.Keys
    requires forall q :: q in g.chains ==> g'.chains[q].txs == g.chains[q].txs
    ensures Homes(txs', g')
  {
    forall d | d in g'.home ensures HomeOk(g', d) {
      assert HomeOk(g, d);
    }
    forall q | q in g'.chains ensures ChainPlaced(g', q) {
      assert ChainPlaced(g, q);
    }
  }

  lemma DeliverHomes(txs: map<TxId, Tx>, g: Calls, r: TxId, id: TxId, x: ThreadId, t: Tx)
    requires Homes(txs, g) && r in g.chains && id in txs
    ensures Homes(txs[id := t], DeliveredTo(g, r, x))
  {
    RehomeKept(txs, g, txs[id := t], DeliveredTo(g, r, x));
  }

  lemma DeliverAt(threads: map<ThreadId, Thread>, txs: map<TxId, Tx>, g: Calls, r: TxId, id: TxId, x: ThreadId)
    requires Inv(threads, txs, g, None)
    requires x in threads && id in txs && r in g.chains
    requires x in g.site ==> g.site[x] == r
    requires var c := g.chains[r];
             && |c.txs| > 0 && |c.path| == |c.txs| && c.txs[|c.txs| - 1] == id
             && c.path[|c.txs| - 1] != Some(x) && threads[x].stack == Top(c, x)
    ensures Inv(threads[x := threads[x].(stack := Some(id))],
                txs[id := Taken(txs[id], x, threads[x].stack)], DeliveredTo(g, r, x), None)
  {
    var t := Taken(txs[id], x, threads[x].stack);
    DeliverSites(threads, g, r, x);
    DeliverChains(txs, g, r, x, t);
    DeliverHomes(txs, g, r, id, x, t);
  }

  lemma DeliverKeeps(threads: map<ThreadId, Thread>, txs: map<TxId, Tx>, g: Calls, id: TxId, x: ThreadId)
    requires Inv(threads, txs, g, None)
    requires x in threads && id in txs
    requires txs[id].place == ThreadQueue(x) || (txs[id].place.ProcQueue? && threads[x].stack == None)
    ensures id in g.home && g.home[id].root in g.chains
    ensures Inv(threads[x := threads[x].(stack := Some(id))],
                txs[id := Taken(txs[id], x, threads[x].stack)], DeliveredTo(g, g.home[id].root, x), None)
  {
    QueuedIsLeaf(txs, g, None, id);
    TakerStack(threads, txs, g, g.home[id].root, x);
    DeliverAt(threads, txs, g, g.home[id].root, id, x);
  }

  // --- letting go ----------------------------------------------------------

  /** The callee `x` of chain `r` lets go of the innermost call. */
  function LetGo(g: Calls, r: TxId, x: ThreadId): Calls
    requires r in g.chains && |g.chains[r].txs| <= |g.chains[r].path|
  {
    var d := Detached(g.chains[r]);
    Calls(g.chains[r := d], g.home, if Last(d.path, x, |d.path|) >= 0 then g.site else g.site - {x})
  }

  lemma LetGoSites(threads: map<ThreadId, Thread>, g: Calls, r: TxId, x: ThreadId, e: Status)
    requires Sites(threads, g) && r in g.chains && x in threads
    requires var c := g.chains[r]; |c.txs| > 0 && Delivering(c) && c.path[|c.txs|] == Some(x)
    requires threads[x].err2 == Ok
    ensures var c := g.chains[r];
            var u := EntryAt(c, Last(c.path, x, |c.txs|));
            Sites(threads[x := threads[x].(stack := u, err := e)], LetGo(g, r, x))
  {
    var c, g' := g.chains[r], LetGo(g, r, x);
    var n, d := |c.txs|, Detached(c);
    var u := EntryAt(c, Last(c.path, x, n));
    var threads' := threads[x := threads[x].(stack := u, err := e)];
    assert PathPlaced(g, r);
    assert c.path[n].value in g.site;
    forall y | y in threads' ensures ThreadOk(threads'[y], y, g') {
      assert ThreadOk(threads[y], y, g);
      LastAgrees(d.path, c.path, y, n);
    }
    forall q | q in g'.chains ensures PathPlaced(g', q) {
      assert PathPlaced(g, q);
      if q == r {
        forall i | 0 <= i < n && d.path[i] == Some(x) ensures x in g'.site {
          LastIsLast(d.path, x, n, i);
        }
      }
    }
  }

  lemma LetGoHomes(txs: map<TxId, Tx>, g: Calls, r: TxId, x: ThreadId)
    requires Homes(txs, g) && r in g.chains && |g.chains[r].txs| <= |g.chains[r].path|
    ensures Homes(txs, LetGo(g, r, x))
  {
    RehomeKept(txs, g, txs, LetGo(g, r, x));
  }

  lemma LetGoKeeps(threads: map<ThreadId, Thread>, txs: map<TxId, Tx>, g: Calls, r: TxId, x: ThreadId, e: Status)
    requires Inv(threads, txs, g, None)
    requires r in g.chains && x in threads && threads[x].err2 == Ok
    requires var c := g.chains[r]; |c.txs| > 0 && Delivering(c) && c.path[|c.txs|] == Some(x)
    ensures var c := g.chains[r];
            && c.txs[|c.txs| - 1] in txs
            && Inv(threads[x := threads[x].(stack := txs[c.txs[|c.txs| - 1]].toParent, err := e)], txs, LetGo(g, r, x), Some(r))
  {
    LetGoSites(threads, g, r, x, e);
    LetGoChains(txs, g, r);
    LetGoHomes(txs, g, r, x);
  }

  lemma LetGoChains(txs: map<TxId, Tx>, g: Calls, r: TxId)
    requires Chains(txs, g.chains, None) && Homes(txs, g) && r in g.chains
    ensures |g.chains[r].txs| <= |g.chains[r].path|
    ensures Chains(txs, g.chains[r := Detached(g.chains[r])], Some(r))
    ensures var c := g.chains[r];
            && |c.txs| > 0 && c.txs[|c.txs| - 1] in txs
            && (Delivering(c) && c.path[|c.txs|].Some? ==>
                  txs[c.txs[|c.txs| - 1]].toParent == EntryAt(c, Last(c.path, c.path[|c.txs|].value, |c.txs|)))
  {
    assert ChainAt(txs, g.chains, None, r);
    assert Linked(txs, g.chains[r], |g.chains[r].txs| - 1);
    DetachChain(txs, g.chains[r], r);
    OtherChains(txs, g, None, txs, r);
    ReplaceChain(txs, g.chains, r, Detached(g.chains[r]), Some(r));
  }

  lemma QueuedLetGo(threads: map<ThreadId, Thread>, txs: map<TxId, Tx>, g: Calls, r: TxId)
    requires Inv(threads, txs, g, None)
    requires r in g.chains && !Delivering(g.chains[r])
    ensures Inv(threads, txs, g, Some(r))
  {
    assert ChainAt(txs, g.chains, None, r);
    forall q | q in g.chains ensures ChainAt(txs, g.chains, Some(r), q) {
      assert ChainAt(txs, g.chains, None, q);
    }
  }

  // --- ending the innermost call -------------------------------------------

  /** The structure without the orphaned innermost call of chain `r`. */
  function Ended(g: Calls, r: TxId): Calls
    requires r in g.chains && |g.chains[r].txs| >= 1 && |g.chains[r].path| == |g.chains[r].txs|
  {
    var c := g.chains[r];
    var n := |c.txs|;
    var home := g.home - {c.txs[n - 1]};
    if n == 1 then
      Calls(g.chains - {r}, home, if c.path[0].Some? then g.site - {c.path[0].value} else g.site)
    else if c.path[n - 1].Some? then
      Calls(g.chains[r := Returned(c)], home, g.site)
    else
      Calls(g.chains[r := Detached(Returned(c))], home, g.site)
  }

  /** The propagation of a failed reply goes on when the caller has exited and had a caller itself. */
  function StillOrphan(g: Calls, r: TxId): Option<TxId>
    requires r in g.chains && |g.chains[r].txs| >= 1 && |g.chains[r].path| == |g.chains[r].txs|
  {
    var c := g.chains[r];
    if |c.txs| > 1 && c.path[|c.txs| - 1].None? then Some(r) else None
  }

  /** What the record of the orphaned call says. */
  lemma OrphanRecord(txs: map<TxId, Tx>, g: Calls, r: TxId)
    requires Chains(txs, g.chains, Some(r)) && r in g.chains
    ensures var c := g.chains[r];
            && |c.txs| >= 1 && |c.path| == |c.txs| && c.txs[|c.txs| - 1] in txs
            && txs[c.txs[|c.txs| - 1]].from == c.path[|c.txs| - 1]
            && txs[c.txs[|c.txs| - 1]].fromParent == (if |c.txs| == 1 then None else Some(c.txs[|c.txs| - 2]))
  {
    assert ChainAt(txs, g.chains, Some(r), r);
    assert Linked(txs, g.chains[r], |g.chains[r].txs| - 1);
  }

  /** The orphaned call is the only record that goes. */
  lemma EndRecords(txs: map<TxId, Tx>, g: Calls, r: TxId, c: Chain)
    requires Homes(txs, g) && r in g.chains && c == g.chains[r] && |c.txs| >= 1 && ChainOk(txs, c, r, true)
    ensures var txs' := txs - {c.txs[|c.txs| - 1]};
            forall i :: 0 <= i < |c.txs| - 1 ==> c.txs[i] in txs && c.txs[i] in txs' && txs'[c.txs[i]] == txs[c.txs[i]]
  {
    assert ChainPlaced(g, r);
    forall i | 0 <= i < |c.txs| - 1 ensures c.txs[i] in txs && c.txs[i] != c.txs[|c.txs| - 1] {
      assert Linked(txs, c, i);
    }
  }

  lemma EndChains(txs: map<TxId, Tx>, g: Calls, r: TxId)
    requires Chains(txs, g.chains, Some(r)) && Homes(txs, g) && r in g.chains
    requires |g.chains[r].txs| >= 1 && |g.chains[r].path| == |g.chains[r].txs|
    ensures var c := g.chains[r]; Chains(txs - {c.txs[|c.txs| - 1]}, Ended(g, r).chains, StillOrphan(g, r))
  {
    var c := g.chains[r];
    var leaf := c.txs[|c.txs| - 1];
    var txs' := txs - {leaf};
    assert ChainPlaced(g, r);
    OtherChains(txs, g, Some(r), txs', r);
    if |c.txs| > 1 {
      assert ChainAt(txs, g.chains, Some(r), r);
      EndRecords(txs, g, r, c);
      ReturnChain(txs, c, r, txs');
      ReplaceChain(txs', g.chains, r, Ended(g, r).chains[r], StillOrphan(g, r));
    } else {
      RemoveChain(txs', g.chains, r);
    }
  }

  lemma EndHomes(txs: map<TxId, Tx>, g: Calls, r: TxId)
    requires Homes(txs, g) && r in g.chains
    requires |g.chains[r].txs| >= 1 && |g.chains[r].path| == |g.chains[r].txs|
    ensures var c := g.chains[r]; Homes(txs - {c.txs[|c.txs| - 1]}, Ended(g, r))
  {
    var c, g' := g.chains[r], Ended(g, r);
    var leaf := c.txs[|c.txs| - 1];
    assert g'.home.Keys == (txs - {leaf}).Keys;
    assert ChainPlaced(g, r);
    forall d | d in g'.home ensures HomeOk(g', d) {
      assert HomeOk(g, d);
    }
    forall q | q in g'.chains ensures ChainPlaced(g', q) {
      assert ChainPlaced(g, q);
    }
  }

  /** The paths after the end of the innermost call, whose caller lives. */
  lemma EndPaths(g: Calls, r: TxId)
    requires (forall q {:trigger PathPlaced(g, q)} :: q in g.chains ==> PathPlaced(g, q)) && r in g.chains
    requires var c := g.chains[r]; |c.txs| >= 1 && |c.path| == |c.txs| && c.path[|c.txs| - 1].Some?
    ensures var g' := Ended(g, r); forall q {:trigger PathPlaced(g', q)} :: q in g'.chains ==> PathPlaced(g', q)
  {
    var c, g' := g.chains[r], Ended(g, r);
    assert PathPlaced(g, r);
    assert Returned(c).path == c.path;
    forall q | q in g'.chains ensures PathPlaced(g', q) {
      assert PathPlaced(g, q);
    }
  }

  /** The caller of the innermost call serves the call around it again, or nothing. */
  lemma EndCaller(t: Thread, g: Calls, r: TxId, f: ThreadId)
    requires r in g.chains && f in g.site && g.site[f] == r
    requires var c := g.chains[r]; |c.txs| >= 1 && |c.path| == |c.txs| && c.path[|c.txs| - 1] == Some(f)
    requires t.err2 != Ok ==> t.err != Ok
    requires t.stack == if |g.chains[r].txs| == 1 then None else Some(g.chains[r].txs[|g.chains[r].txs| - 2])
    ensures ThreadOk(t, f, Ended(g, r))
  {
    assert Returned(g.chains[r]).path == g.chains[r].path;
  }

  /** Every other thread waits as before. */
  lemma EndOther(t: Thread, g: Calls, r: TxId, f: ThreadId, y: ThreadId)
    requires r in g.chains && ThreadOk(t, y, g) && y != f
    requires var c := g.chains[r]; |c.txs| >= 1 && |c.path| == |c.txs| && c.path[|c.txs| - 1] == Some(f)
    requires PathPlaced(g, r)
    ensures ThreadOk(t, y, Ended(g, r))
  {
    assert Returned(g.chains[r]).path == g.chains[r].path;
  }

  lemma EndSitesLive(threads: map<ThreadId, Thread>, g: Calls, r: TxId, e: Status, e2: Status)
    requires Sites(threads, g) && r in g.chains
    requires var c := g.chains[r]; |c.txs| >= 1 && |c.path| == |c.txs| && c.path[|c.txs| - 1].Some?
    requires e2 != Ok ==> e != Ok
    ensures var c := g.chains[r];
            var f := c.path[|c.txs| - 1].value;
            var u := if |c.txs| == 1 then None else Some(c.txs[|c.txs| - 2]);
            && f in threads
            && Sites(threads[f := threads[f].(stack := u, err := e, err2 := e2)], Ended(g, r))
  {
    var c, g' := g.chains[r], Ended(g, r);
    var f := c.path[|c.txs| - 1].value;
    var u := if |c.txs| == 1 then None else Some(c.txs[|c.txs| - 2]);
    assert PathPlaced(g, r);
    assert f in g.site;
    var threads' := threads[f := threads[f].(stack := u, err := e, err2 := e2)];
    EndPaths(g, r);
    forall y | y in threads' ensures ThreadOk(threads'[y], y, g') {
      if y == f {
        EndCaller(threads'[f], g, r, f);
      } else {
        assert ThreadOk(threads[y], y, g);
        EndOther(threads[y], g, r, f, y);
      }
    }
  }

  lemma EndSitesDead(threads: map<ThreadId, Thread>, g: Calls, r: TxId)
    requires Sites(threads, g) && r in g.chains
    requires var c := g.chains[r]; |c.txs| >= 1 && |c.path| == |c.txs| && c.path[|c.txs| - 1].None?
    ensures Sites(threads, Ended(g, r))
  {
    var c, g' := g.chains[r], Ended(g, r);
    var n := |c.txs|;
    forall y | y in threads ensures ThreadOk(threads[y], y, g') {
      assert ThreadOk(threads[y], y, g);
      if n > 1 {
        LastAgrees(g'.chains[r].path, c.path, y, n - 1);
      }
    }
    forall q | q in g'.chains ensures PathPlaced(g', q) {
      assert PathPlaced(g, q);
    }
  }

  /** Popping the orphaned call off its live caller's stack; the two error slots change to `e` and `e2`. */
  lemma PopLiveKeeps(threads: map<ThreadId, Thread>, txs: map<TxId, Tx>, g: Calls, r: TxId, e: Status, e2: Status)
    requires Inv(threads, txs, g, Some(r)) && r in g.chains
    requires var c := g.chains[r]; |c.txs| >= 1 && |c.path| == |c.txs| && c.path[|c.txs| - 1].Some?
    requires e2 != Ok ==> e != Ok
    ensures var c := g.chains[r];
            var f, leaf := c.path[|c.txs| - 1].value, c.txs[|c.txs| - 1];
            && f in threads && leaf in txs && StillOrphan(g, r) == None
            && Inv(threads[f := threads[f].(stack := txs[leaf].fromParent, err := e, err2 := e2)],
                   txs - {leaf}, Ended(g, r), None)
  {
    OrphanRecord(txs, g, r);
    EndChains(txs, g, r);
    EndHomes(txs, g, r);
    EndSitesLive(threads, g, r, e, e2);
  }

  lemma PopDeadKeeps(threads: map<ThreadId, Thread>, txs: map<TxId, Tx>, g: Calls, r: TxId)
    requires Inv(threads, txs, g, Some(r)) && r in g.chains
    requires var c := g.chains[r]; |c.txs| >= 1 && |c.path| == |c.txs| && c.path[|c.txs| - 1].None?
    ensures var c := g.chains[r];
            Inv(threads, txs - {c.txs[|c.txs| - 1]}, Ended(g, r), StillOrphan(g, r))
  {
    OrphanRecord(txs, g, r);
    EndChains(txs, g, r);
    EndHomes(txs, g, r);
    EndSitesDead(threads, g, r);
  }

  /** The caller of the orphaned call waits for it, with its second error slot free. */
  lemma CallerWaits(threads: map<ThreadId, Thread>, txs: map<TxId, Tx>, g: Calls, r: TxId)
    requires Inv(threads, txs, g, Some(r)) && r in g.chains
    ensures var c := g.chains[r];
            && |c.txs| >= 1 && |c.path| == |c.txs| && c.txs[|c.txs| - 1] in txs
            && txs[c.txs[|c.txs| - 1]].from == c.path[|c.txs| - 1]
            && txs[c.txs[|c.txs| - 1]].fromParent == (if |c.txs| == 1 then None else Some(c.txs[|c.txs| - 2]))
            && (c.path[|c.txs| - 1].Some? ==>
                  var f := c.path[|c.txs| - 1].value;
                  && f in threads
                  && threads[f].stack == Some(c.txs[|c.txs| - 1])
                  && threads[f].err2 == Ok)
  {
    OrphanRecord(txs, g, r);
    var c := g.chains[r];
    if c.path[|c.txs| - 1].Some? {
      assert PathPlaced(g, r);
      assert ThreadOk(threads[c.path[|c.txs| - 1].value], c.path[|c.txs| - 1].value, g);
    }
  }

  // --- exiting -------------------------------------------------------------

  /** Every record of chain `r` with the references to `x` removed. */
  function Forgotten(txs: map<TxId, Tx>, g: Calls, r: TxId, x: ThreadId): map<TxId, Tx>
    requires txs.Keys == g.home.Keys
  {
    map id | id in txs :: if g.home[id].root == r then Forget(txs[id], x) else txs[id]
  }

  function Exited(g: Calls, r: TxId, x: ThreadId, held: bool): Calls
    requires r in g.chains && |g.chains[r].txs| <= |g.chains[r].path|
  {
    Calls(g.chains[r := AfterExit(g.chains[r], x, held)], g.home, g.site - {x})
  }

  lemma ForgottenRecords(txs: map<TxId, Tx>, g: Calls, r: TxId, x: ThreadId)
    requires Homes(txs, g) && r in g.chains && ChainOk(txs, g.chains[r], r, false)
    ensures var (c, txs') := (g.chains[r], Forgotten(txs, g, r, x));
            forall i :: 0 <= i < |c.txs| ==> c.txs[i] in txs && c.txs[i] in txs' && txs'[c.txs[i]] == Forget(txs[c.txs[i]], x)
  {
    var c := g.chains[r];
    assert ChainPlaced(g, r);
    forall i | 0 <= i < |c.txs| ensures c.txs[i] in txs {
      assert Linked(txs, c, i);
    }
  }

  lemma ExitChains(txs: map<TxId, Tx>, g: Calls, r: TxId, x: ThreadId)
    requires Chains(txs, g.chains, None) && Homes(txs, g) && r in g.chains
    ensures var c := g.chains[r];
            && 1 <= |c.txs| <= |c.path| && c.txs[|c.txs| - 1] in txs
            && var held := Holds(txs[c.txs[|c.txs| - 1]], c, x);
            Chains(Forgotten(txs, g, r, x), Exited(g, r, x, held).chains, if held then Some(r) else None)
  {
    var c := g.chains[r];
    assert ChainAt(txs, g.chains, None, r);
    assert ChainPlaced(g, r);
    var txs' := Forgotten(txs, g, r, x);
    OtherChains(txs, g, None, txs', r);
    ForgottenRecords(txs, g, r, x);
    KillChain(txs, c, r, x, txs');
    var held := Holds(txs[c.txs[|c.txs| - 1]], c, x);
    ReplaceChain(txs', g.chains, r, AfterExit(c, x, held), if held then Some(r) else None);
  }

  lemma ExitSites(threads: map<ThreadId, Thread>, g: Calls, r: TxId, x: ThreadId, held: bool)
    requires Sites(threads, g) && x in g.site && g.site[x] == r && r in g.chains
    requires 1 <= |g.chains[r].txs| <= |g.chains[r].path| <= |g.chains[r].txs| + 1
    requires held && Delivering(g.chains[r]) ==> g.chains[r].path[|g.chains[r].txs|] == Some(x)
    ensures Sites(threads - {x}, Exited(g, r, x, held))
  {
    var c, g' := g.chains[r], Exited(g, r, x, held);
    var d, threads' := g'.chains[r], threads - {x};
    forall y | y in threads' ensures ThreadOk(threads'[y], y, g') {
      assert ThreadOk(threads[y], y, g);
      if y in g.site && g.site[y] == r {
        LastAgrees(d.path, c.path, y, |d.path|);
      }
    }
    forall q | q in g'.chains ensures PathPlaced(g', q) {
      assert PathPlaced(g, q);
      if q != r && x in g.site {
        assert g'.chains[q] == g.chains[q];
      }
    }
  }

  lemma ExitHomes(txs: map<TxId, Tx>, g: Calls, r: TxId, x: ThreadId, held: bool)
    requires Homes(txs, g) && r in g.chains && |g.chains[r].txs| <= |g.chains[r].path|
    ensures Homes(Forgotten(txs, g, r, x), Exited(g, r, x, held))
  {
    RehomeKept(txs, g, Forgotten(txs, g, r, x), Exited(g, r, x, held));
  }

  lemma ExitKeeps(threads: map<ThreadId, Thread>, txs: map<TxId, Tx>, g: Calls, r: TxId, x: ThreadId)
    requires Inv(threads, txs, g, None) && x in g.site && g.site[x] == r
    ensures r in g.chains
    ensures var c := g.chains[r];
            && 1 <= |c.txs| <= |c.path| && c.txs[|c.txs| - 1] in txs
            && var held := Holds(txs[c.txs[|c.txs| - 1]], c, x);
            Inv(threads - {x}, Forgotten(txs, g, r, x), Exited(g, r, x, held), if held then Some(r) else None)
  {
    assert ThreadOk(threads[x], x, g);
    ExitChains(txs, g, r, x);
    var held := Holds(txs[g.chains[r].txs[|g.chains[r].txs| - 1]], g.chains[r], x);
    ExitSites(threads, g, r, x, held);
    ExitHomes(txs, g, r, x, held);
  }

  lemma IdleExitKeeps(threads: map<ThreadId, Thread>, txs: map<TxId, Tx>, g: Calls, x: ThreadId)
    requires Inv(threads, txs, g, None) && x !in g.site
    ensures Inv(threads - {x}, txs, g, None)
  {
    forall y | y in threads - {x} ensures ThreadOk((threads - {x})[y], y, g) {
      assert ThreadOk(threads[y], y, g);
    }
  }

  /** Changing the error slots of one thread, within their discipline. */
  lemma ErrorsKept(threads: map<ThreadId, Thread>, txs: map<TxId, Tx>, g: Calls, x: ThreadId, e: Status, e2: Status)
    requires Inv(threads, txs, g, None) && x in threads
    requires (e2 != Ok ==> e != Ok) && (e2 == Ok || e2 == threads[x].err2)
    ensures Inv(threads[x := threads[x].(err := e, err2 := e2)], txs, g, None)
  {
    var threads' := threads[x := threads[x].(err := e, err2 := e2)];
    forall y | y in threads' ensures ThreadOk(threads'[y], y, g) {
      assert ThreadOk(threads[y], y, g);
    }
  }

  lemma SpawnKept(threads: map<ThreadId, Thread>, txs: map<TxId, Tx>, g: Calls, x: ThreadId, p: ProcId)
    requires Inv(threads, txs, g, None) && x !in threads
    ensures Inv(threads[x := Thread(p, None, Ok, Ok)], txs, g, None)
  {
    var threads' := threads[x := Thread(p, None, Ok, Ok)];
    forall y | y in threads' ensures ThreadOk(threads'[y], y, g) {
      assert y != x ==> ThreadOk(threads[y], y, g);
    }
  }
}
