/** The order in which a search tree holds its addresses, which rebalancing does not change. */
module TreeOrder {
  import opened Sequences
  import opened SearchTree

  function InOrder(t: Tree): seq<nat> {
    match t
    case Leaf => []
    case Node(l, a, r) => InOrder(l) + [a] + InOrder(r)
  }

  function Minus(s: seq<nat>, a: nat): seq<nat> {
    if s == [] then [] else if s[0] == a then Minus(s[1..], a) else [s[0]] + Minus(s[1..], a)
  }

  /** `a` put in behind the last key that is not larger. */
  function Put(s: seq<nat>, a: nat, keys: Keys): seq<nat> {
    if s == [] then [a]
    else if KeyOf(keys, a) < KeyOf(keys, s[0]) then [a] + s
    else [s[0]] + Put(s[1..], a, keys)
  }

  predicate Ascending(s: seq<nat>, keys: Keys) {
    forall i, j :: 0 <= i < j < |s| ==> KeyOf(keys, s[i]) <= KeyOf(keys, s[j])
  }

  /** No later address has the key of `a`. */
  predicate LastOfKey(s: seq<nat>, a: nat, keys: Keys) {
    forall i, j :: 0 <= i < j < |s| && s[i] == a ==> KeyOf(keys, s[j]) != KeyOf(keys, a)
  }

  // --- sequences -------------------------------------------------------------

  lemma {:induction false} MinusAppend(s: seq<nat>, t: seq<nat>, a: nat)
    ensures Minus(s + t, a) == Minus(s, a) + Minus(t, a)
  {
    if s == [] {
      assert s + t == t;
    } else {
      assert (s + t)[1..] == s[1..] + t;
      MinusAppend(s[1..], t, a);
      Reassociate([s[0]], Minus(s[1..], a), Minus(t, a));
    }
  }

  lemma {:induction false} MinusAbsent(s: seq<nat>, a: nat)
    requires a !in s
    ensures Minus(s, a) == s
  {
    if s != [] {
      MinusAbsent(s[1..], a);
    }
  }

  /** Put among the first addresses when a later key is larger. */
  lemma {:induction false} PutBefore(s: seq<nat>, t: seq<nat>, a: nat, keys: Keys)
    requires t != [] && KeyOf(keys, a) < KeyOf(keys, t[0])
    ensures Put(s + t, a, keys) == Put(s, a, keys) + t
  {
    if s == [] {
      assert s + t == t;
    } else {
      assert (s + t)[1..] == s[1..] + t;
      PutBefore(s[1..], t, a, keys);
    }
  }

  /** Put behind addresses whose keys are not larger. */
  lemma {:induction false} PutAfter(s: seq<nat>, t: seq<nat>, a: nat, keys: Keys)
    requires forall i :: 0 <= i < |s| ==> KeyOf(keys, s[i]) <= KeyOf(keys, a)
    ensures Put(s + t, a, keys) == s + Put(t, a, keys)
  {
    if s == [] {
      assert s + t == t;
    } else {
      assert (s + t)[1..] == s[1..] + t;
      PutAfter(s[1..], t, a, keys);
      Reassociate([s[0]], s[1..], Put(t, a, keys));
      assert [s[0]] + s[1..] == s;
    }
  }

  /** The first address was the last of its key. */
  lemma RestoredFirst(s: seq<nat>, keys: Keys)
    requires s != [] && Ascending(s, keys) && Distinct(s)
    ensures Put(Minus(s, s[0]), s[0], keys) == s <==> LastOfKey(s, s[0], keys)
  {
    var a, rest := s[0], s[1..];
    assert a !in rest;
    MinusAbsent(rest, a);
    assert s == [a] + rest;
    if rest != [] && KeyOf(keys, a) == KeyOf(keys, s[1]) {
      assert !LastOfKey(s, a, keys);
      assert Put(rest, a, keys)[0] == s[1];
    } else if rest != [] {
      assert KeyOf(keys, a) < KeyOf(keys, s[1]);
    }
  }

  lemma LastOfKeyRest(s: seq<nat>, a: nat, keys: Keys)
    requires s != [] && s[0] != a
    ensures LastOfKey(s, a, keys) <==> LastOfKey(s[1..], a, keys)
  {
    var rest := s[1..];
    if LastOfKey(rest, a, keys) {
      forall i, j | 0 <= i < j < |s| && s[i] == a
        ensures KeyOf(keys, s[j]) != KeyOf(keys, a)
      {
        assert rest[i - 1] == a && rest[j - 1] == s[j];
      }
    }
    if LastOfKey(s, a, keys) {
      forall i, j | 0 <= i < j < |rest| && rest[i] == a
        ensures KeyOf(keys, rest[j]) != KeyOf(keys, a)
      {
        assert s[i + 1] == a && s[j + 1] == rest[j];
      }
    }
  }

  /** Taking an address out and putting it back restores the order exactly when it was the last of its key. */
  lemma {:induction false} RestoredIff(s: seq<nat>, a: nat, keys: Keys)
    requires a in s && Ascending(s, keys) && Distinct(s)
    ensures Put(Minus(s, a), a, keys) == s <==> LastOfKey(s, a, keys)
  {
    if s[0] == a {
      RestoredFirst(s, keys);
    } else {
      var k :| 0 <= k < |s| && s[k] == a;
      assert KeyOf(keys, s[0]) <= KeyOf(keys, a);
      var rest, moved := s[1..], Put(Minus(s[1..], a), a, keys);
      RestoredIff(rest, a, keys);
      LastOfKeyRest(s, a, keys);
      PutAfter([s[0]], Minus(rest, a), a, keys);
      SameRest(s, moved);
    }
  }

  lemma SameRest(s: seq<nat>, t: seq<nat>)
    requires s != []
    ensures [s[0]] + t == s <==> t == s[1..]
  {
    assert s == [s[0]] + s[1..];
    assert ([s[0]] + t)[1..] == t;
  }

  // --- trees -----------------------------------------------------------------

  lemma {:induction false} InOrderElems(t: Tree)
    ensures forall x :: x in InOrder(t) <==> x in Elems(t)
  {
    match t
    case Leaf =>
    case Node(l, a, r) =>
      InOrderElems(l);
      InOrderElems(r);
  }

  /** A sorted tree holds each address once, by ascending keys. */
  lemma {:induction false} InOrderAscending(t: Tree, keys: Keys)
    requires Sorted(t, keys)
    ensures Ascending(InOrder(t), keys) && Distinct(InOrder(t))
  {
    match t
    case Leaf =>
    case Node(l, a, r) =>
      InOrderAscending(l, keys);
      InOrderAscending(r, keys);
      InOrderElems(l);
      InOrderElems(r);
      Combined(InOrder(l), a, InOrder(r), keys);
  }

  lemma Combined(s: seq<nat>, a: nat, t: seq<nat>, keys: Keys)
    requires Ascending(s, keys) && Ascending(t, keys) && Distinct(s) && Distinct(t)
    requires a !in s && a !in t && forall x :: x in s ==> x !in t
    requires (forall x :: x in s ==> KeyOf(keys, x) <= KeyOf(keys, a)) && forall x :: x in t ==> KeyOf(keys, a) <= KeyOf(keys, x)
    ensures Ascending(s + [a] + t, keys) && Distinct(s + [a] + t)
  {
    var all := s + [a] + t;
    forall i, j | 0 <= i < j < |all|
      ensures KeyOf(keys, all[i]) <= KeyOf(keys, all[j]) && all[i] != all[j]
    {
      assert i < |s| ==> all[i] in s;
      assert j < |s| ==> all[j] in s;
      assert i > |s| ==> all[i] in t;
      assert j > |s| ==> all[j] in t;
    }
  }

  lemma {:induction false} JoinOrder(l: Tree, r: Tree)
    ensures InOrder(Join(l, r)) == InOrder(l) + InOrder(r)
  {
    match l
    case Leaf =>
    case Node(ll, x, lr) =>
      JoinOrder(lr, r);
      Reassociate(InOrder(ll) + [x], InOrder(lr), InOrder(r));
  }

  lemma MinusMiddle(s: seq<nat>, x: nat, t: seq<nat>, a: nat)
    ensures Minus(s + [x] + t, a) == if x == a then Minus(s, a) + Minus(t, a) else Minus(s, a) + [x] + Minus(t, a)
  {
    MinusAppend(s + [x], t, a);
    MinusAppend(s, [x], a);
    assert Minus([x], a) == if x == a then [] else [x];
    assert Minus(s, a) + [] == Minus(s, a);
  }

  lemma {:induction false} EraseOrder(t: Tree, a: nat, keys: Keys)
    requires Sorted(t, keys)
    ensures InOrder(Erase(t, a)) == Minus(InOrder(t), a)
  {
    match t
    case Leaf =>
    case Node(l, x, r) =>
      MinusMiddle(InOrder(l), x, InOrder(r), a);
      if x == a {
        InOrderElems(l);
        InOrderElems(r);
        MinusAbsent(InOrder(l), a);
        MinusAbsent(InOrder(r), a);
        JoinOrder(l, r);
      } else {
        EraseOrder(l, a, keys);
        EraseOrder(r, a, keys);
      }
  }

  lemma {:induction false} InsertOrder(t: Tree, a: nat, keys: Keys)
    requires Sorted(t, keys) && a in keys && Elems(t) <= keys.Keys
    ensures InOrder(Insert(t, a, keys)) == Put(InOrder(t), a, keys)
  {
    match t
    case Leaf =>
    case Node(l, x, r) =>
      InOrderElems(l);
      Reassociate(InOrder(l), [x], InOrder(r));
      if keys[a] < keys[x] {
        InsertOrder(l, a, keys);
        PutBefore(InOrder(l), [x] + InOrder(r), a, keys);
        Reassociate(Put(InOrder(l), a, keys), [x], InOrder(r));
      } else {
        InsertOrder(r, a, keys);
        PutAfter(InOrder(l) + [x], InOrder(r), a, keys);
      }
  }

  /** A new address is erased without a trace. */
  lemma {:induction false} EraseInserted(t: Tree, a: nat, keys: Keys)
    requires a !in Elems(t)
    ensures Erase(Insert(t, a, keys), a) == t
  {
    match t
    case Leaf =>
    case Node(l, x, r) =>
      EraseAbsent(l, a);
      EraseAbsent(r, a);
      if KeyOf(keys, a) < KeyOf(keys, x) {
        EraseInserted(l, a, keys);
      } else {
        EraseInserted(r, a, keys);
      }
  }

  lemma {:induction false} EraseAbsent(t: Tree, a: nat)
    requires a !in Elems(t)
    ensures Erase(t, a) == t
  {
    match t
    case Leaf =>
    case Node(l, x, r) =>
      EraseAbsent(l, a);
      EraseAbsent(r, a);
  }

  /** Erasing an address and inserting it again restores the order exactly when it was the last of its key. */
  lemma ReinsertOrder(t: Tree, a: nat, keys: Keys)
    requires Sorted(t, keys) && a in Elems(t) && Elems(t) <= keys.Keys
    ensures InOrder(Insert(Erase(t, a), a, keys)) == Put(Minus(InOrder(t), a), a, keys)
    ensures InOrder(Insert(Erase(t, a), a, keys)) == InOrder(t) <==> LastOfKey(InOrder(t), a, keys)
  {
    EraseSorted(t, a, keys, keys);
    EraseOrder(t, a, keys);
    InsertOrder(Erase(t, a), a, keys);
    InOrderAscending(t, keys);
    InOrderElems(t);
    RestoredIff(InOrder(t), a, keys);
  }
}
