/**
 Search trees of buffer addresses.  The key of an address is not stored in the
 tree: for free buffers it is a size recomputed from the row of buffers, so a
 change of the row can put a tree out of order.  Rebalancing is not modelled; the
 shape of a tree decides only which of several equal keys is found first.
 */
module SearchTree {
  import opened Wrappers

  datatype Tree = Leaf | Node(left: Tree, addr: nat, right: Tree)

  function Elems(t: Tree): set<nat> {
    match t
    case Leaf => {}
    case Node(l, a, r) => Elems(l) + {a} + Elems(r)
  }

  type Keys = map<nat, nat>

  /** In-order keys never decrease, and no address occurs twice. */
  predicate Sorted(t: Tree, keys: Keys) {
    match t
    case Leaf => true
    case Node(l, a, r) =>
      && Sorted(l, keys) && Sorted(r, keys)
      && a in keys && a !in Elems(l) && a !in Elems(r) && Elems(l) !! Elems(r)
      && (forall x :: x in Elems(l) ==> x in keys && keys[x] <= keys[a])
      && (forall x :: x in Elems(r) ==> x in keys && keys[a] <= keys[x])
  }

  function KeyOf(keys: Keys, a: nat): nat {
    if a in keys then keys[a] else 0
  }

  /** Goes left below a larger key and right otherwise, to an empty place. */
  function Insert(t: Tree, a: nat, keys: Keys): (u: Tree)
    ensures Elems(u) == Elems(t) + {a}
  {
    match t
    case Leaf => Node(Leaf, a, Leaf)
    case Node(l, x, r) =>
      if KeyOf(keys, a) < KeyOf(keys, x) then Node(Insert(l, a, keys), x, r) else Node(l, x, Insert(r, a, keys))
  }

  lemma {:induction false} InsertSorted(t: Tree, a: nat, keys: Keys)
    requires Sorted(t, keys) && a in keys && a !in Elems(t) && Elems(t) <= keys.Keys
    ensures Sorted(Insert(t, a, keys), keys)
  {
    match t
    case Leaf =>
    case Node(l, x, r) =>
      if keys[a] < keys[x] {
        InsertSorted(l, a, keys);
      } else {
        InsertSorted(r, a, keys);
      }
  }

  function Join(l: Tree, r: Tree): (u: Tree)
    ensures Elems(u) == Elems(l) + Elems(r)
  {
    match l
    case Leaf => r
    case Node(ll, x, lr) => Node(ll, x, Join(lr, r))
  }

  lemma {:induction false} JoinSorted(l: Tree, r: Tree, keys: Keys)
    requires Sorted(l, keys) && Sorted(r, keys) && Elems(l) !! Elems(r)
    requires Elems(l) <= keys.Keys && Elems(r) <= keys.Keys
    requires forall x, y :: x in Elems(l) && y in Elems(r) ==> keys[x] <= keys[y]
    ensures Sorted(Join(l, r), keys)
  {
    match l
    case Leaf =>
    case Node(ll, x, lr) => JoinSorted(lr, r, keys);
  }

  /** Unlinks the node of `a`, wherever it is: no key is looked at. */
  function Erase(t: Tree, a: nat): (u: Tree)
    ensures Elems(u) <= Elems(t)
  {
    match t
    case Leaf => Leaf
    case Node(l, x, r) => if x == a then Join(l, r) else Node(Erase(l, a), x, Erase(r, a))
  }

  lemma {:induction false} SortedAgrees(t: Tree, keys: Keys, keys': Keys)
    requires Sorted(t, keys) && Elems(t) <= keys.Keys
    requires forall x :: x in Elems(t) ==> x in keys' && keys'[x] == keys[x]
    ensures Sorted(t, keys')
  {
    match t
    case Leaf =>
    case Node(l, x, r) =>
      SortedAgrees(l, keys, keys');
      SortedAgrees(r, keys, keys');
  }

  lemma {:induction false} EraseElems(t: Tree, a: nat, keys: Keys)
    requires Sorted(t, keys)
    ensures Elems(Erase(t, a)) == Elems(t) - {a}
  {
    match t
    case Leaf =>
    case Node(l, x, r) =>
      EraseElems(l, a, keys);
      EraseElems(r, a, keys);
  }

  lemma EraseRoot(t: Tree, keys: Keys, keys': Keys)
    requires t.Node? && Sorted(t, keys) && Elems(t) <= keys.Keys
    requires forall x :: x in Elems(t) && x != t.addr ==> x in keys' && keys'[x] == keys[x]
    ensures Sorted(Join(t.left, t.right), keys')
  {
    SortedAgrees(t.left, keys, keys');
    SortedAgrees(t.right, keys, keys');
    JoinSorted(t.left, t.right, keys');
  }

  /** Erasing `a` leaves the rest in order, even where the key of `a` has meanwhile changed. */
  lemma {:induction false} EraseSorted(t: Tree, a: nat, keys: Keys, keys': Keys)
    requires Sorted(t, keys) && Elems(t) <= keys.Keys
    requires forall x :: x in Elems(t) && x != a ==> x in keys' && keys'[x] == keys[x]
    ensures Sorted(Erase(t, a), keys')
  {
    match t
    case Leaf =>
    case Node(l, x, r) =>
      if x == a {
        EraseRoot(t, keys, keys');
      } else {
        EraseElems(l, a, keys);
        EraseElems(r, a, keys);
        EraseSorted(l, a, keys, keys');
        EraseSorted(r, a, keys, keys');
      }
  }

  /** The address where the best-fit descent ends: among equal keys the first one it meets. */
  function Fit(t: Tree, keys: Keys, need: nat): Option<nat> {
    match t
    case Leaf => None
    case Node(l, a, r) =>
      if need > KeyOf(keys, a) then Fit(r, keys, need)
      else if need == KeyOf(keys, a) then Some(a)
      else if Fit(l, keys, need).Some? then Fit(l, keys, need)
      else Some(a)
  }

  /** The best-fit descent: a smallest key that is at least `need`, if there is one. */
  method BestFit(t: Tree, keys: Keys, need: nat) returns (best: Option<nat>)
    requires Sorted(t, keys) && Elems(t) <= keys.Keys
    ensures best == None ==> forall a :: a in Elems(t) ==> keys[a] < need
    ensures best.Some? ==>
              && best.value in Elems(t) && need <= keys[best.value]
              && forall a :: a in Elems(t) && need <= keys[a] ==> keys[best.value] <= keys[a]
    ensures best == Fit(t, keys, need)
  {
    best := None;
    var n := t;
    while n.Node?
      invariant Fit(t, keys, need) == if Fit(n, keys, need).Some? then Fit(n, keys, need) else best
      invariant Elems(n) <= Elems(t) && Sorted(n, keys)
      invariant best.Some? ==>
                  && best.value in Elems(t) && need < keys[best.value]
                  && forall a :: a in Elems(n) ==> keys[a] <= keys[best.value]
      invariant forall a :: a in Elems(t) && need <= keys[a] ==>
                  a in Elems(n) || (best.Some? && keys[best.value] <= keys[a])
      decreases n
    {
      var k := keys[n.addr];
      if need < k {
        best := Some(n.addr);
        n := n.left;
      } else if need > k {
        n := n.right;
      } else {
        best := Some(n.addr);
        break;
      }
    }
  }

  /** Search by address in a tree ordered by address. */
  method Find(t: Tree, keys: Keys, a: int) returns (found: bool)
    requires Sorted(t, keys) && Elems(t) <= keys.Keys
    requires forall x :: x in Elems(t) ==> keys[x] == x
    ensures found <==> a in Elems(t)
  {
    var n := t;
    while n.Node?
      invariant Elems(n) <= Elems(t) && Sorted(n, keys)
      invariant a in Elems(t) <==> a in Elems(n)
      decreases n
    {
      if a < n.addr {
        n := n.left;
      } else if a > n.addr {
        n := n.right;
      } else {
        return true;
      }
    }
    return false;
  }
}
