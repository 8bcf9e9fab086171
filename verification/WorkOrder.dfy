/** The ordering of scheduled works (base/src/work/BasicQueue.h): the comparison as it is
    written, the order its comment documents, and what separates the two. */
module WorkOrder {

  const SECOND := 1_000_000  // microseconds
  const PERIOD := 5          // seconds

  /** Activation time in microseconds since the epoch, and the priority. */
  datatype Key = Key(at: int, priority: int)

  /** C++ integer division: truncates toward zero. */
  function Quotient(a: int, b: int): int
    requires b > 0
  {
    if a >= 0 then a / b else -((-a) / b)
  }

  /** The 5-second interval a timestamp falls in, counted from the epoch. */
  function Period(at: int): int {
    Quotient(Quotient(at, SECOND), PERIOD)
  }

  /** Key::operator<, branch by branch. */
  predicate Less(a: Key, b: Key) {
    if Period(a.at) < Period(b.at) then true
    else if a.priority > b.priority then true
    else if a.priority < b.priority then false
    else a.at < b.at
  }

  /** The order the comment describes: interval first, then priority, then the whole time. */
  predicate DocLess(a: Key, b: Key) {
    || Period(a.at) < Period(b.at)
    || (Period(a.at) == Period(b.at) &&
        (a.priority > b.priority || (a.priority == b.priority && a.at < b.at)))
  }

  /** a lies in a later interval than b but has the higher priority. */
  predicate Inverted(a: Key, b: Key) {
    Period(a.at) > Period(b.at) && a.priority > b.priority
  }

  ghost predicate NoInversion(keys: set<Key>) {
    forall a, b | a in keys && b in keys :: !Inverted(a, b)
  }

  /** What std::multimap demands of its comparator, on the given keys. */
  ghost predicate StrictWeakOn(less: (Key, Key) -> bool, keys: set<Key>) {
    && (forall a | a in keys :: !less(a, a))
    && (forall a, b, c | a in keys && b in keys && c in keys ::
          less(a, b) && less(b, c) ==> less(a, c))
    && (forall a, b, c | a in keys && b in keys && c in keys ::
          !less(a, b) && !less(b, a) && !less(b, c) && !less(c, b) ==> !less(a, c))
  }

  /** From the epoch on, the intervals are the five-second ones. */
  lemma PeriodIsFiveSeconds(at: int)
    requires at >= 0
    ensures 5_000_000 * Period(at) <= at < 5_000_000 * (Period(at) + 1)
  {
  }

  lemma PeriodMonotone(s: int, t: int)
    requires s <= t
    ensures Period(s) <= Period(t)
  {
  }

  /** Two timestamps of one interval are less than 10 seconds apart, and less than 5
      when the earlier one is not before the epoch. */
  lemma PeriodSpan(s: int, t: int)
    requires s <= t && Period(s) == Period(t)
    ensures t - s < 10_000_000
    ensures 0 <= s ==> t - s < 5_000_000
  {
  }

  /** The written comparison differs from the documented one exactly on inverted pairs. */
  lemma LessIsDocLessUnlessInverted(a: Key, b: Key)
    ensures (Less(a, b) == DocLess(a, b)) <==> !Inverted(a, b)
    ensures Inverted(a, b) ==> Less(a, b) && Less(b, a)
  {
    if a.at <= b.at { PeriodMonotone(a.at, b.at); } else { PeriodMonotone(b.at, a.at); }
  }

  lemma DocLessIsStrictWeak(keys: set<Key>)
    ensures StrictWeakOn(DocLess, keys)
  {
    forall a, b, c | a in keys && b in keys && c in keys
      ensures DocLess(a, b) && DocLess(b, c) ==> DocLess(a, c)
      ensures !DocLess(a, b) && !DocLess(b, a) && !DocLess(b, c) && !DocLess(c, b) ==> !DocLess(a, c)
    {
    }
  }

  /** The written comparison is a strict weak order on exactly the key sets without an inverted pair. */
  lemma LessIsStrictWeakIff(keys: set<Key>)
    ensures StrictWeakOn(Less, keys) <==> NoInversion(keys)
  {
    if NoInversion(keys) {
      DocLessIsStrictWeak(keys);
      forall a, b | a in keys && b in keys
        ensures Less(a, b) == DocLess(a, b)
      {
        LessIsDocLessUnlessInverted(a, b);
      }
      forall a, b, c | a in keys && b in keys && c in keys
        ensures Less(a, b) && Less(b, c) ==> Less(a, c)
        ensures !Less(a, b) && !Less(b, a) && !Less(b, c) && !Less(c, b) ==> !Less(a, c)
      {
        assert DocLess(a, b) && DocLess(b, c) ==> DocLess(a, c);
      }
    } else {
      var a, b :| a in keys && b in keys && Inverted(a, b);
      LessIsDocLessUnlessInverted(a, b);
      assert Less(a, b) && Less(b, a) && !Less(a, a);
    }
  }

  ghost predicate OnePriority(keys: set<Key>) {
    forall a, b | a in keys && b in keys :: a.priority == b.priority
  }

  ghost predicate OnePeriod(keys: set<Key>) {
    forall a, b | a in keys && b in keys :: Period(a.at) == Period(b.at)
  }

  lemma OnePriorityOrOnePeriod(keys: set<Key>)
    requires OnePriority(keys) || OnePeriod(keys)
    ensures StrictWeakOn(Less, keys)
  {
    LessIsStrictWeakIff(keys);
  }

  // ----- where a search tree puts a new key

  /** A place where a search tree over the given keys may attach a new one: the search passed its
      in-order neighbours, going right at the one before and left at the one after. */
  predicate Slot(keys: seq<Key>, key: Key, p: nat) {
    && p <= |keys|
    && (0 < p ==> !Less(key, keys[p - 1]))
    && (p < |keys| ==> Less(key, keys[p]))
  }

  lemma SlotExists(keys: seq<Key>, key: Key)
    ensures exists p: nat | p <= |keys| :: Slot(keys, key, p)
  {
    var p := 0;
    while p < |keys| && !Less(key, keys[p])
      invariant 0 <= p <= |keys|
      invariant 0 < p ==> !Less(key, keys[p - 1])
    {
      p := p + 1;
    }
    assert Slot(keys, key, p);
  }

  ghost predicate DocSorted(keys: seq<Key>) {
    forall i, j | 0 <= i < j < |keys| :: !DocLess(keys[j], keys[i])
  }

  ghost function KeySet(keys: seq<Key>): set<Key> { set k | k in keys }

  /** Over keys that never invert, the slot is the upper bound: everything not above the new key
      stays before it, everything above it after. */
  lemma {:induction false} SlotIsUpperBound(keys: seq<Key>, key: Key, p: nat)
    requires DocSorted(keys) && NoInversion(KeySet(keys) + {key}) && Slot(keys, key, p)
    ensures forall i | 0 <= i < p :: !DocLess(key, keys[i])
    ensures forall i | p <= i < |keys| :: DocLess(key, keys[i])
  {
    forall i | 0 <= i < p
      ensures !DocLess(key, keys[i])
    {
      assert keys[p - 1] in KeySet(keys);
      LessIsDocLessUnlessInverted(key, keys[p - 1]);
      assert i < p - 1 ==> !DocLess(keys[p - 1], keys[i]);
    }
    forall i | p <= i < |keys|
      ensures DocLess(key, keys[i])
    {
      assert keys[p] in KeySet(keys);
      LessIsDocLessUnlessInverted(key, keys[p]);
      assert p < i ==> !DocLess(keys[i], keys[p]);
    }
  }

  /** The trees that inserting the keys one after another, in order, can produce. */
  ghost predicate Built(history: seq<Key>, tree: seq<Key>)
    decreases |history|
  {
    if history == [] then tree == []
    else
      var last := |history| - 1;
      exists before: seq<Key>, p: nat :: Attached(before, history[last], p, tree) && Built(history[..last], before)
  }

  ghost predicate Attached(keys: seq<Key>, key: Key, p: nat, all: seq<Key>) {
    p <= |keys| && Slot(keys, key, p) && all == keys[..p] + [key] + keys[p..]
  }

  lemma BuiltLast(history: seq<Key>, tree: seq<Key>) returns (before: seq<Key>, p: nat)
    requires history != [] && Built(history, tree)
    ensures Built(history[..|history| - 1], before) && Attached(before, history[|history| - 1], p, tree)
  {
    before, p :| Attached(before, history[|history| - 1], p, tree) && Built(history[..|history| - 1], before);
  }

  lemma InsertAdds(keys: seq<Key>, key: Key, p: nat)
    requires p <= |keys|
    ensures multiset(keys[..p] + [key] + keys[p..]) == multiset(keys) + multiset{key}
  {
    assert keys == keys[..p] + keys[p..];
  }

  lemma LastAdds(keys: seq<Key>)
    requires keys != []
    ensures multiset(keys) == multiset(keys[..|keys| - 1]) + multiset{keys[|keys| - 1]}
  {
    assert keys == keys[..|keys| - 1] + [keys[|keys| - 1]];
  }

  lemma {:induction false} BuiltKeepsKeys(history: seq<Key>, tree: seq<Key>)
    requires Built(history, tree)
    ensures multiset(tree) == multiset(history)
    decreases |history|
  {
    if history != [] {
      var last := |history| - 1;
      var before, p := BuiltLast(history, tree);
      BuiltKeepsKeys(history[..last], before);
      InsertAdds(before, history[last], p);
      LastAdds(history);
    }
  }

  lemma SameKeySet(s: seq<Key>, t: seq<Key>)
    requires multiset(s) == multiset(t)
    ensures KeySet(s) == KeySet(t)
  {
    assert forall k :: k in s <==> k in multiset(s);
    assert forall k :: k in t <==> k in multiset(t);
  }

  lemma {:induction false} InsertSorted(keys: seq<Key>, key: Key, p: nat)
    requires DocSorted(keys) && NoInversion(KeySet(keys) + {key}) && Slot(keys, key, p)
    ensures DocSorted(keys[..p] + [key] + keys[p..])
  {
    SlotIsUpperBound(keys, key, p);
    var tree := keys[..p] + [key] + keys[p..];
    forall i, j | 0 <= i < j < |tree|
      ensures !DocLess(tree[j], tree[i])
    {
      if i < p < j { assert DocSorted(keys) && tree[j] == keys[j - 1] && tree[i] == keys[i]; }
    }
  }

  lemma {:induction false} BuiltSorted(history: seq<Key>, tree: seq<Key>)
    requires Built(history, tree) && NoInversion(KeySet(history))
    ensures DocSorted(tree)
    decreases |history|
  {
    if history != [] {
      var last := |history| - 1;
      var before, p := BuiltLast(history, tree);
      BuiltKeepsKeys(history[..last], before);
      SameKeySet(before, history[..last]);
      assert KeySet(before) + {history[last]} <= KeySet(history);
      BuiltSorted(history[..last], before);
      InsertSorted(before, history[last], p);
    }
  }

  /** Every history can be built. */
  lemma {:induction false} BuiltExists(history: seq<Key>) returns (tree: seq<Key>)
    ensures Built(history, tree)
    decreases |history|
  {
    if history == [] {
      tree := [];
    } else {
      var front, key := history[..|history| - 1], history[|history| - 1];
      var before := BuiltExists(front);
      SlotExists(before, key);
      var p: nat :| p <= |before| && Slot(before, key, p);
      BuiltOneMore(front, before, key, p);
      assert history == front + [key];
      tree := before[..p] + [key] + before[p..];
    }
  }

  lemma BuiltOneMore(history: seq<Key>, tree: seq<Key>, key: Key, p: nat)
    requires Built(history, tree) && p <= |tree| && Slot(tree, key, p)
    ensures Built(history + [key], tree[..p] + [key] + tree[p..])
  {
    var more := history + [key];
    assert more[..|more| - 1] == history && more[|more| - 1] == key;
    assert Attached(tree, key, p, tree[..p] + [key] + tree[p..]) && Built(more[..|more| - 1], tree);
  }

  /** Of an inverted pair the later key, inserted second, goes in front: a key of a later
      interval precedes one that is due before it. */
  lemma {:induction false} BuiltPair(a: Key, b: Key)
    requires Inverted(a, b)
    ensures forall tree :: Built([b, a], tree) <==> tree == [a, b]
  {
    LessIsDocLessUnlessInverted(a, b);
    assert [b][..0] == [] && [b, a][..1] == [b];
    assert [a, b] == [b][..0] + [a] + [b][0..];
    assert [b] == [][..0] + [b] + [][0..] && Attached([], b, 0, [b]);
    assert forall t :: Built([b], t) <==> t == [b];
    assert Attached([b], a, 0, [a, b]);
  }

  lemma SamePair(keys: seq<Key>, lo: nat, hi: nat)
    requires lo < hi < |keys|
    ensures multiset(keys) == multiset{keys[lo], keys[hi]} + multiset(keys[..lo] + keys[lo + 1..hi] + keys[hi + 1..])
  {
    assert keys == keys[..lo] + [keys[lo]] + keys[lo + 1..hi] + [keys[hi]] + keys[hi + 1..];
  }

  ghost predicate InFront(tree: seq<Key>, a: Key, b: Key) {
    exists i, j | 0 <= i < j < |tree| :: tree[i] == a && tree[j] == b
  }

  /** Attaching more keys never swaps two that are already there: whatever shape the tree takes, it keeps an
      inverted pair in the wrong order. */
  lemma {:induction false} PairStaysMisplaced(a: Key, b: Key, rest: seq<Key>, tree: seq<Key>)
    requires Inverted(a, b) && Built([b, a] + rest, tree)
    ensures InFront(tree, a, b)
    decreases |rest|
  {
    if rest == [] {
      assert [b, a] + rest == [b, a];
      BuiltPair(a, b);
      assert tree[0] == a && tree[1] == b;
    } else {
      var history := [b, a] + rest;
      var before, p := BuiltLast(history, tree);
      assert history[..|history| - 1] == [b, a] + rest[..|rest| - 1];
      PairStaysMisplaced(a, b, rest[..|rest| - 1], before);
      AttachedKeepsOrder(before, history[|history| - 1], p, tree, a, b);
    }
  }

  lemma AttachedKeepsOrder(keys: seq<Key>, key: Key, p: nat, all: seq<Key>, a: Key, b: Key)
    requires Attached(keys, key, p, all) && InFront(keys, a, b)
    ensures InFront(all, a, b)
  {
    var i, j :| 0 <= i < j < |keys| && keys[i] == a && keys[j] == b;
    assert all[if i < p then i else i + 1] == a && all[if j < p then j else j + 1] == b;
  }

  /** Any keys with an inverted pair have an order of insertion that leaves every tree, whatever its shape, out
      of the documented order. */
  lemma InversionMisplaces(keys: seq<Key>, i: nat, j: nat) returns (history: seq<Key>)
    requires i < |keys| && j < |keys| && Inverted(keys[i], keys[j])
    ensures multiset(history) == multiset(keys)
    ensures forall tree :: Built(history, tree) ==> !DocSorted(tree)
  {
    var a, b := keys[i], keys[j];
    var lo, hi := if i < j then i else j, if i < j then j else i;
    var rest := keys[..lo] + keys[lo + 1..hi] + keys[hi + 1..];
    history := [b, a] + rest;
    SamePair(keys, lo, hi);
    assert multiset(history) == multiset{b, a} + multiset(rest);
    forall tree | Built(history, tree)
      ensures !DocSorted(tree)
    {
      PairStaysMisplaced(a, b, rest, tree);
      assert DocLess(b, a);
    }
  }

  /** Some tree of the history stands in the documented order. */
  ghost predicate CanBeSorted(history: seq<Key>) { exists tree :: Built(history, tree) && DocSorted(tree) }

  /** All do. */
  ghost predicate MustBeSorted(history: seq<Key>) { forall tree :: Built(history, tree) ==> DocSorted(tree) }

  /** The active index ends in the documented order for every order of insertion if and only if no two of the
      keys invert; and that is already so when every order of insertion has some tree in that order, so an
      inverted pair has a history after which the index is out of order whatever shape its tree takes. */
  lemma EveryHistorySortedIff(keys: seq<Key>)
    ensures (forall history | multiset(history) == multiset(keys) :: MustBeSorted(history))
       <==> NoInversion(KeySet(keys))
    ensures (forall history | multiset(history) == multiset(keys) :: CanBeSorted(history))
       <==> NoInversion(KeySet(keys))
  {
    if NoInversion(KeySet(keys)) {
      forall history | multiset(history) == multiset(keys)
        ensures MustBeSorted(history) && CanBeSorted(history)
      {
        AlwaysSorted(history, keys);
      }
    } else {
      var a, b :| a in keys && b in keys && Inverted(a, b);
      var i: nat, j: nat :| i < |keys| && keys[i] == a && j < |keys| && keys[j] == b;
      var history := InversionMisplaces(keys, i, j);
      var tree := BuiltExists(history);
      assert !CanBeSorted(history) && !MustBeSorted(history);
    }
  }

  lemma AlwaysSorted(history: seq<Key>, keys: seq<Key>)
    requires NoInversion(KeySet(keys)) && multiset(history) == multiset(keys)
    ensures MustBeSorted(history) && CanBeSorted(history)
  {
    SameKeySet(history, keys);
    forall tree | Built(history, tree)
      ensures DocSorted(tree)
    {
      BuiltSorted(history, tree);
    }
    var tree := BuiltExists(history);
  }
}
