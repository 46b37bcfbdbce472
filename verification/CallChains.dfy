/**
 Synchronous binder calls.  A thread's transaction stack is a linked list that
 threads its way through `from_parent` and `to_parent` of the transactions it
 sends and serves.  This module defines those records, the call chain that the
 links are meant to describe, and the invariant that ties the two together.
 */
module CallChains {
  import opened Wrappers

  type ThreadId = nat
  type ProcId = nat
  type TxId = nat

  /** BR_* codes a thread can hold in its two error slots. */
  datatype Status = Ok | Complete | FailedReply | DeadReply | CommandError

  /** Where a synchronous transaction's work entry is. */
  datatype Place = ThreadQueue(thread: ThreadId) | ProcQueue(proc: ProcId) | Delivered

  datatype Tx = Tx(
    from: Option<ThreadId>,
    fromParent: Option<TxId>,
    toThread: Option<ThreadId>,
    toParent: Option<TxId>,
    place: Place)

  datatype Thread = Thread(proc: ProcId, stack: Option<TxId>, err: Status, err2: Status)

  /**
   One nest of calls, root first.  `path[i]` is the caller of `txs[i]` and
   `path[i + 1]` its callee; a thread that has exited is None.  The path is one
   longer than `txs` exactly when the last call has been delivered.
   */
  datatype Chain = Chain(txs: seq<TxId>, path: seq<Option<ThreadId>>)

  /** The position of a transaction: its chain's root, and its index there. */
  datatype Slot = Slot(root: TxId, pos: nat)

  /** All live chains by root, with the inverse maps for transactions and threads. */
  datatype Calls = Calls(chains: map<TxId, Chain>, home: map<TxId, Slot>, site: map<ThreadId, TxId>)

  /** The last position below `n` at which `path` visits `x`, or -1. */
  function Last(path: seq<Option<ThreadId>>, x: ThreadId, n: nat): (j: int)
    requires n <= |path|
    ensures -1 <= j < n
    ensures j >= 0 ==> path[j] == Some(x)
  {
    if n == 0 then -1 else if path[n - 1] == Some(x) then n - 1 else Last(path, x, n - 1)
  }

  lemma {:induction false} LastIsLast(path: seq<Option<ThreadId>>, x: ThreadId, n: nat, k: nat)
    requires k < n <= |path| && path[k] == Some(x)
    ensures k <= Last(path, x, n)
  {
    if path[n - 1] != Some(x) {
      LastIsLast(path, x, n - 1, k);
    }
  }

  predicate Delivering(c: Chain) {
    |c.path| == |c.txs| + 1
  }

  /** The stack entry a thread holds for its visit at position `j` of the path. */
  function EntryAt(c: Chain, j: int): Option<TxId>
    requires j < |c.path| && |c.path| <= |c.txs| + 1 && (|c.txs| == 0 ==> j < 0)
  {
    if j < 0 then None
    else if j == |c.txs| then Some(c.txs[j - 1])
    else Some(c.txs[j])
  }

  /** The thread at position `i` of a path does not call itself. */
  predicate CallsAnother(path: seq<Option<ThreadId>>, i: nat)
    requires i + 1 < |path|
  {
    path[i].Some? ==> path[i] != path[i + 1]
  }

  predicate Shape(c: Chain, root: TxId) {
    && |c.txs| >= 1 && c.txs[0] == root
    && |c.txs| <= |c.path| <= |c.txs| + 1
    && (forall i :: 0 <= i < |c.path| - 1 ==> CallsAnother(c.path, i))
  }

  /** The top of `x`'s transaction stack, read off the chain. */
  function Top(c: Chain, x: ThreadId): Option<TxId>
    requires |c.txs| >= 1 && |c.txs| <= |c.path| <= |c.txs| + 1
  {
    EntryAt(c, Last(c.path, x, |c.path|))
  }

  /** `x` waits for a reply: its last visit is as a caller. */
  predicate Waiting(c: Chain, x: ThreadId) {
    Last(c.path, x, |c.path|) < |c.txs|
  }

  /** Transaction record `t` says what position `i` of the chain says. */
  predicate Link(t: Tx, c: Chain, i: nat)
    requires i < |c.txs| <= |c.path| <= |c.txs| + 1
  {
    && t.from == c.path[i]
    && t.fromParent == (if i == 0 then None else Some(c.txs[i - 1]))
    && (i + 1 < |c.path| ==>
          && t.place.Delivered?
          && t.toThread == c.path[i + 1]
          && (c.path[i + 1].Some? ==>
                t.toParent == EntryAt(c, Last(c.path, c.path[i + 1].value, i + 1))))
  }

  predicate Linked(txs: map<TxId, Tx>, c: Chain, i: nat)
    requires i < |c.txs| <= |c.path| <= |c.txs| + 1
  {
    c.txs[i] in txs && Link(txs[c.txs[i]], c, i)
  }

  /** The innermost call may be queued where it is: for its process, or for another live thread of the same chain. */
  predicate Queueable(t: Tx, c: Chain)
    requires |c.path| >= 1
  {
    match t.place
    case ThreadQueue(b) => t.toThread == Some(b) && Last(c.path, b, |c.path|) >= 0 && c.path[|c.path| - 1] != Some(b)
    case ProcQueue(_) => t.toThread == None
    case Delivered => false
  }

  /**
   The innermost call is held by somebody who can end it: a live callee, or the
   queue of a process, or the queue of another live thread of the same chain.
   */
  predicate LeafHeld(t: Tx, c: Chain)
    requires |c.txs| >= 1 && |c.txs| <= |c.path| <= |c.txs| + 1
  {
    if Delivering(c) then c.path[|c.txs|].Some? else Queueable(t, c)
  }

  predicate ChainOk(txs: map<TxId, Tx>, c: Chain, root: TxId, orphan: bool) {
    && Shape(c, root)
    && (forall i :: 0 <= i < |c.txs| ==> Linked(txs, c, i))
    && Linked(txs, c, |c.txs| - 1)
    && (if orphan then !Delivering(c) else LeafHeld(txs[c.txs[|c.txs| - 1]], c))
  }

  predicate HomeOk(g: Calls, id: TxId)
    requires id in g.home
  {
    var h := g.home[id];
    h.root in g.chains && h.pos < |g.chains[h.root].txs| && g.chains[h.root].txs[h.pos] == id
  }

  predicate ChainPlaced(g: Calls, r: TxId)
    requires r in g.chains
  {
    forall i :: 0 <= i < |g.chains[r].txs| ==>
      g.chains[r].txs[i] in g.home && g.home[g.chains[r].txs[i]] == Slot(r, i)
  }

  /** Every live transaction is at exactly one place of exactly one chain. */
  predicate Homes(txs: map<TxId, Tx>, g: Calls) {
    && g.home.Keys == txs.Keys
    && (forall id {:trigger HomeOk(g, id)} :: id in g.home ==> HomeOk(g, id))
    && (forall r {:trigger ChainPlaced(g, r)} :: r in g.chains ==> ChainPlaced(g, r))
  }

  /** What a live thread's record says about the chain it is in, if any. */
  predicate ThreadOk(t: Thread, x: ThreadId, g: Calls) {
    && (t.err2 != Ok ==> t.err != Ok)
    && (if x in g.site then
          && g.site[x] in g.chains
          && var c := g.chains[g.site[x]];
          && |c.txs| >= 1 && |c.txs| <= |c.path| <= |c.txs| + 1
          && Last(c.path, x, |c.path|) >= 0
          && t.stack == Top(c, x)
          && (Waiting(c, x) ==> t.err2 == Ok)
        else t.stack == None)
  }

  predicate PathPlaced(g: Calls, r: TxId)
    requires r in g.chains
  {
    forall i :: 0 <= i < |g.chains[r].path| && g.chains[r].path[i].Some? ==>
      g.chains[r].path[i].value in g.site && g.site[g.chains[r].path[i].value] == r
  }

  /** Every live thread is in at most one chain, and its stack is what that chain says. */
  predicate Sites(threads: map<ThreadId, Thread>, g: Calls) {
    && g.site.Keys <= threads.Keys
    && (forall x {:trigger ThreadOk(threads[x], x, g)} :: x in threads ==> ThreadOk(threads[x], x, g))
    && (forall r {:trigger PathPlaced(g, r)} :: r in g.chains ==> PathPlaced(g, r))
  }

  predicate ChainAt(txs: map<TxId, Tx>, chains: map<TxId, Chain>, orphan: Option<TxId>, r: TxId)
    requires r in chains
  {
    ChainOk(txs, chains[r], r, orphan == Some(r))
  }

  predicate Chains(txs: map<TxId, Tx>, chains: map<TxId, Chain>, orphan: Option<TxId>) {
    forall r {:trigger ChainAt(txs, chains, orphan, r)} :: r in chains ==> ChainAt(txs, chains, orphan, r)
  }

  /**
   The invariant.  While a failed reply is being propagated, the innermost call
   of one chain, `orphan`, is held by nobody.
   */
  predicate Inv(threads: map<ThreadId, Thread>, txs: map<TxId, Tx>, g: Calls, orphan: Option<TxId>) {
    Chains(txs, g.chains, orphan) && Homes(txs, g) && Sites(threads, g)
  }
}
