/**
 Binder nodes: the counters kept for an object that a process has handed out,
 and the handshake by which its owner is told to keep it alive.
 */
module NodeCounts {
  import opened Wrappers

  type ProcId = nat
  type NodeId = nat
  type RefId = nat

  datatype Node = Node(
    proc: Option<ProcId>,
    ptr: nat,
    cookie: nat,
    internalStrong: int,
    localStrong: int,
    localWeak: int,
    hasStrong: bool,
    pendingStrong: bool,
    hasWeak: bool,
    pendingWeak: bool,
    queued: bool)

  /** A process's reference to a node. */
  datatype Ref = Ref(proc: ProcId, node: NodeId, desc: nat, strong: nat, weak: nat)

  datatype IncResult = IncResult(node: Node, ok: bool)

  /**
   binder_inc_node.  `list` tells whether the caller names a work list; `context`
   whether this is the context manager's node.
   */
  function IncNode(n: Node, strong: bool, internal: bool, list: bool, context: bool): IncResult {
    if strong then
      if internal && !list && n.internalStrong == 0 && !(n.proc.Some? && context && n.hasStrong) then IncResult(n, false)
      else
        var counted := if internal then n.(internalStrong := n.internalStrong + 1) else n.(localStrong := n.localStrong + 1);
        IncResult(if !n.hasStrong && list then counted.(queued := true) else counted, true)
    else
      var counted := if internal then n else n.(localWeak := n.localWeak + 1);
      if !n.hasWeak && !n.queued then
        if list then IncResult(counted.(queued := true), true) else IncResult(counted, false)
      else IncResult(counted, true)
  }

  /** binder_dec_node; `refs` tells whether references to the node are left.  None: the node is freed. */
  function DecNode(n: Node, strong: bool, internal: bool, refs: bool): Option<Node> {
    var counted :=
      if strong then
        if internal then n.(internalStrong := n.internalStrong - 1) else n.(localStrong := n.localStrong - 1)
      else if internal then n else n.(localWeak := n.localWeak - 1);
    if strong && (counted.localStrong != 0 || counted.internalStrong != 0) then Some(counted)
    else if !strong && (counted.localWeak != 0 || refs) then Some(counted)
    else if n.proc.Some? && (n.hasStrong || n.hasWeak) then Some(counted.(queued := true))
    else if !refs && counted.localStrong == 0 && counted.localWeak == 0 then None
    else Some(counted)
  }

  /**
   What the owner is told about its node.  `Presumed` is not sent: the context
   manager is taken to hold its own object from the start.
   */
  datatype Notice = Increfs | Acquire | Release | Decrefs | Presumed

  /** Handling a node's work entry: a notice, or the end of the entry and perhaps of the node. */
  datatype ReadResult = Told(notice: Notice, node: Node) | Settled(node: Node) | Gone

  function ReadNode(n: Node, refs: bool): ReadResult {
    var strong := n.internalStrong != 0 || n.localStrong != 0;
    var weak := refs || n.localWeak != 0 || strong;
    if weak && !n.hasWeak then
      Told(Increfs, n.(hasWeak := true, pendingWeak := true, localWeak := n.localWeak + 1))
    else if strong && !n.hasStrong then
      Told(Acquire, n.(hasStrong := true, pendingStrong := true, localStrong := n.localStrong + 1))
    else if !strong && n.hasStrong then Told(Release, n.(hasStrong := false))
    else if !weak && n.hasWeak then Told(Decrefs, n.(hasWeak := false))
    else if !weak && !strong then Gone
    else Settled(n.(queued := false))
  }

  // --- what the owner sees -------------------------------------------------

  /** What the owner has been told to hold. */
  datatype Holding = Holding(weak: bool, strong: bool)

  /** A notice is in order: weak before strong, and strong given back before weak. */
  function Obey(h: Holding, notice: Notice): Option<Holding> {
    match notice
    case Increfs => if !h.weak && !h.strong then Some(Holding(true, false)) else None
    case Acquire => if h.weak && !h.strong then Some(Holding(true, true)) else None
    case Release => if h.weak && h.strong then Some(Holding(true, false)) else None
    case Decrefs => if h.weak && !h.strong then Some(Holding(false, false)) else None
    case Presumed => if !h.weak && !h.strong then Some(Holding(true, true)) else None
  }

  /** Where a sequence of notices leads from `h`, if every one is in order. */
  function ObeyAll(h: Holding, log: seq<Notice>): Option<Holding> {
    if log == [] then Some(h)
    else
      var before := ObeyAll(h, log[..|log| - 1]);
      if before == None then None else Obey(before.value, log[|log| - 1])
  }

  // --- the counts ----------------------------------------------------------

  function AsNat(b: bool): nat {
    if b then 1 else 0
  }

  /**
   The counters of a node that `strongRefs` references hold strongly, whose owner's
   buffers hold it `holdS` times strongly and `holdW` times weakly.
   */
  predicate Counted(n: Node, strongRefs: nat, holdS: nat, holdW: nat, context: bool) {
    && n.internalStrong == strongRefs
    && (if n.proc.Some? then
          && n.localStrong == AsNat(n.pendingStrong) + AsNat(context) + holdS
          && n.localWeak == AsNat(n.pendingWeak) + AsNat(context) + holdW
          && (n.pendingStrong ==> n.hasStrong) && (n.pendingWeak ==> n.hasWeak)
          && (n.hasStrong ==> n.hasWeak) && (context ==> n.hasStrong)
        else n.localStrong == 0 && n.localWeak == 0 && !context && holdS == 0 && holdW == 0)
  }

  /** A node is freed only when nothing refers to it and nobody holds it. */
  lemma FreedUnused(n: Node, strong: bool, internal: bool, refs: bool, strongRefs: nat, holdS: nat, holdW: nat, context: bool)
    requires Counted(n, strongRefs, holdS, holdW, context)
    requires strong && internal ==> strongRefs > 0
    requires strong && !internal ==> n.localStrong > 0
    requires !strong && !internal ==> n.localWeak > 0
    requires !refs ==> strongRefs == AsNat(strong && internal)
    ensures DecNode(n, strong, internal, refs) == None ==>
              && !refs && strongRefs == AsNat(strong && internal) && !context
              && n.localStrong == AsNat(strong && !internal) && n.localWeak == AsNat(!strong && !internal)
              && (n.proc.Some? ==> !n.hasStrong && !n.hasWeak)
  {
  }

  /** RELEASE and DECREFS are sent only after the matching acquire has been acknowledged, and every notice is in order. */
  lemma NoticeInOrder(n: Node, refs: bool, strongRefs: nat, holdS: nat, holdW: nat, context: bool)
    requires Counted(n, strongRefs, holdS, holdW, context) && n.proc.Some? && (strongRefs > 0 ==> refs)
    ensures match ReadNode(n, refs)
            case Told(notice, m) =>
              && Obey(Holding(n.hasWeak, n.hasStrong), notice) == Some(Holding(m.hasWeak, m.hasStrong))
              && notice != Presumed && (notice == Release ==> !n.pendingStrong) && (notice == Decrefs ==> !n.pendingWeak)
              && Counted(m, strongRefs, holdS, holdW, context)
            case Settled(m) => Counted(m, strongRefs, holdS, holdW, context)
            case Gone => !refs && strongRefs == 0 && holdS == 0 && holdW == 0 && !context && !n.hasWeak && !n.hasStrong
  {
  }
}
