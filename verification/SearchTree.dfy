/**
 GLib's GTree as the mapping index uses it: nodes carry a key object and a value object, both
 compared through a view that gives the (base, size) an object currently has. The shape of the
 tree is unspecified: `Rebalance` applies an arbitrary list of rotations.
 */
module SearchTree {
  import opened Words

  datatype Key = Key(base: Word64, size: Word64) {
    function End(): Word64 {
      Add64(base, size)
    }

    /** The addresses for which mapping_search answers 0. */
    predicate Contains(addr: Word64) {
      base <= addr < End()
    }
  }

  /** mapping_compare */
  function Compare(a: Key, b: Key): int {
    if a.base < b.base then -1
    else if a.base > b.base then 1
    else if a.size < b.size then -1
    else if a.size > b.size then 1
    else 0
  }

  /** The order of keys: by base, and by size where the bases are equal. */
  lemma CompareExactly(a: Key, b: Key)
    ensures Compare(a, b) < 0 <==> a.base < b.base || (a.base == b.base && a.size < b.size)
    ensures Compare(a, b) == 0 <==> a == b
    ensures Compare(a, b) > 0 <==> Compare(b, a) < 0
  {}

  /** mapping_search */
  function Probe(k: Key, addr: Word64): int {
    if addr < k.base then -1
    else if addr < k.End() then 0
    else 1
  }

  datatype Slot<T> = Slot(key: T, value: T)

  datatype Tree<T> = Leaf | Node(left: Tree<T>, slot: Slot<T>, right: Tree<T>)

  function Slots<T(==)>(t: Tree<T>): set<Slot<T>> {
    match t
    case Leaf => {}
    case Node(l, s, r) => Slots(l) + {s} + Slots(r)
  }

  /** The (base, size) an object has under the view. */
  function At<T>(view: map<T, Key>, x: T): Key {
    if x in view then view[x] else Key(0, 0)
  }

  ghost predicate Ordered<T>(t: Tree<T>, view: map<T, Key>)
  {
    match t
    case Leaf => true
    case Node(l, s, r) =>
      && Ordered(l, view) && Ordered(r, view)
      && (forall x :: x in Slots(l) ==> Compare(At(view, x.key), At(view, s.key)) < 0)
      && (forall x :: x in Slots(r) ==> Compare(At(view, s.key), At(view, x.key)) < 0)
  }

  /** g_tree_insert: on an equal key the node keeps its key object and takes the new value. */
  function Insert<T(==)>(t: Tree<T>, m: T, view: map<T, Key>): Tree<T>
  {
    match t
    case Leaf => Node(Leaf, Slot(m, m), Leaf)
    case Node(l, s, r) =>
      var c := Compare(At(view, m), At(view, s.key));
      if c == 0 then Node(l, Slot(s.key, m), r)
      else if c < 0 then Node(Insert(l, m, view), s, r)
      else Node(l, s, Insert(r, m, view))
  }

  /** The node whose key compares equal to m, if any. */
  function Lookup<T(==)>(t: Tree<T>, m: T, view: map<T, Key>): Option<Slot<T>>
  {
    match t
    case Leaf => None
    case Node(l, s, r) =>
      var c := Compare(At(view, m), At(view, s.key));
      if c == 0 then Some(s)
      else if c < 0 then Lookup(l, m, view)
      else Lookup(r, m, view)
  }

  function Join<T>(l: Tree<T>, r: Tree<T>): Tree<T> {
    match l
    case Leaf => r
    case Node(ll, s, lr) => Node(ll, s, Join(lr, r))
  }

  /** g_tree_remove and g_tree_steal: drop the node whose key compares equal to m. */
  function Remove<T(==)>(t: Tree<T>, m: T, view: map<T, Key>): Tree<T>
  {
    match t
    case Leaf => Leaf
    case Node(l, s, r) =>
      var c := Compare(At(view, m), At(view, s.key));
      if c == 0 then Join(l, r)
      else if c < 0 then Node(Remove(l, m, view), s, r)
      else Node(l, s, Remove(r, m, view))
  }

  /** g_tree_search with mapping_search: the value at the first node that answers 0. */
  function Search<T(==)>(t: Tree<T>, addr: Word64, view: map<T, Key>): Option<T>
  {
    match t
    case Leaf => None
    case Node(l, s, r) =>
      var c := Probe(At(view, s.key), addr);
      if c == 0 then Some(s.value)
      else if c < 0 then Search(l, addr, view)
      else Search(r, addr, view)
  }

  /** Where one rotation happens, and to which side the node there is moved. */
  datatype Turn = Here(toRight: bool) | InLeft(turn: Turn) | InRight(turn: Turn)

  function Rotate<T>(t: Tree<T>, turn: Turn): Tree<T> {
    match (turn, t)
    case (Here(true), Node(Node(a, s, b), s', c)) => Node(a, s, Node(b, s', c))
    case (Here(false), Node(a, s, Node(b, s', c))) => Node(Node(a, s, b), s', c)
    case (InLeft(u), Node(l, s, r)) => Node(Rotate(l, u), s, r)
    case (InRight(u), Node(l, s, r)) => Node(l, s, Rotate(r, u))
    case _ => t
  }

  function Rebalance<T>(t: Tree<T>, plan: seq<Turn>): Tree<T>
    decreases |plan|
  {
    if plan == [] then t else Rebalance(Rotate(t, plan[0]), plan[1..])
  }

  // ----- shape independence -----

  lemma {:induction false} RotateSlots<T>(t: Tree<T>, turn: Turn)
    ensures Slots(Rotate(t, turn)) == Slots(t)
    decreases turn
  {
    match (turn, t)
    case (InLeft(u), Node(l, s, r)) => RotateSlots(l, u);
    case (InRight(u), Node(l, s, r)) => RotateSlots(r, u);
    case _ =>
  }

  lemma {:induction false} RotateOrdered<T>(t: Tree<T>, turn: Turn, view: map<T, Key>)
    requires Ordered(t, view)
    ensures Ordered(Rotate(t, turn), view)
    decreases turn
  {
    RotateSlots(t, turn);
    match (turn, t)
    case (Here(true), Node(Node(a, s, b), s', c)) =>
      assert s in Slots(t.left) && Slots(b) <= Slots(t.left);
    case (Here(false), Node(a, s, Node(b, s', c))) =>
      assert s' in Slots(t.right) && Slots(b) <= Slots(t.right);
    case (InLeft(u), Node(l, s, r)) =>
      RotateSlots(l, u);
      RotateOrdered(l, u, view);
    case (InRight(u), Node(l, s, r)) =>
      RotateSlots(r, u);
      RotateOrdered(r, u, view);
    case _ =>
  }

  /** However GLib rebalances, the tree holds the same nodes, in the same key order. */
  lemma {:induction false} RebalanceKeeps<T>(t: Tree<T>, plan: seq<Turn>, view: map<T, Key>)
    ensures Slots(Rebalance(t, plan)) == Slots(t)
    ensures Ordered(t, view) ==> Ordered(Rebalance(t, plan), view)
    decreases |plan|
  {
    if plan != [] {
      RotateSlots(t, plan[0]);
      if Ordered(t, view) {
        RotateOrdered(t, plan[0], view);
      }
      RebalanceKeeps(Rotate(t, plan[0]), plan[1..], view);
    }
  }

  /** The order only depends on the keys of the objects in the tree. */
  lemma {:induction false} OrderedFrame<T>(t: Tree<T>, view: map<T, Key>, view': map<T, Key>)
    requires Ordered(t, view)
    requires forall s :: s in Slots(t) ==> At(view', s.key) == At(view, s.key)
    ensures Ordered(t, view')
  {
    if t.Node? {
      assert t.slot in Slots(t) && Slots(t.left) <= Slots(t) && Slots(t.right) <= Slots(t);
      OrderedFrame(t.left, view, view');
      OrderedFrame(t.right, view, view');
    }
  }

  // ----- insertion and removal -----

  /** Lookup finds exactly the slot whose key has the same (base, size). */
  lemma {:induction false} LookupExact<T>(t: Tree<T>, m: T, view: map<T, Key>)
    requires Ordered(t, view)
    ensures Lookup(t, m, view).Some? ==> Lookup(t, m, view).value in Slots(t)
    ensures forall s :: s in Slots(t) ==> (At(view, s.key) == At(view, m) <==> Lookup(t, m, view) == Some(s))
  {
    if t.Node? {
      LookupExact(t.left, m, view);
      LookupExact(t.right, m, view);
    }
  }

  /** An insertion at a free key adds exactly one node. */
  lemma {:induction false} InsertFree<T>(t: Tree<T>, m: T, view: map<T, Key>)
    requires Ordered(t, view)
    requires forall s :: s in Slots(t) ==> At(view, s.key) != At(view, m)
    ensures Slots(Insert(t, m, view)) == Slots(t) + {Slot(m, m)}
    ensures Ordered(Insert(t, m, view), view)
  {
    if t.Node? {
      assert t.slot in Slots(t);
      if Compare(At(view, m), At(view, t.slot.key)) < 0 {
        InsertFree(t.left, m, view);
      } else {
        InsertFree(t.right, m, view);
      }
    }
  }

  /** A subtree in which slot s became x, with the same key, may take the place of the old one. */
  lemma ReplacedLeft<T>(t: Tree<T>, left: Tree<T>, view: map<T, Key>, s: Slot<T>, x: Slot<T>)
    requires Ordered(t, view) && t.Node? && Ordered(left, view)
    requires s in Slots(t.left) && x.key == s.key && Slots(left) == Slots(t.left) - {s} + {x}
    ensures Slots(Node(left, t.slot, t.right)) == Slots(t) - {s} + {x} && Ordered(Node(left, t.slot, t.right), view)
  {
    hide Compare;
    DistinctSlots(t, view);
    SlotsApart(Slots(t.left), t.slot, Slots(t.right), s, x);
  }

  lemma ReplacedRight<T>(t: Tree<T>, right: Tree<T>, view: map<T, Key>, s: Slot<T>, x: Slot<T>)
    requires Ordered(t, view) && t.Node? && Ordered(right, view)
    requires s in Slots(t.right) && x.key == s.key && Slots(right) == Slots(t.right) - {s} + {x}
    ensures Slots(Node(t.left, t.slot, right)) == Slots(t) - {s} + {x} && Ordered(Node(t.left, t.slot, right), view)
  {
    hide Compare;
    DistinctSlots(t, view);
    SlotsApart(Slots(t.left), t.slot, Slots(t.right), s, x);
  }

  lemma SlotsApart<T>(l: set<Slot<T>>, c: Slot<T>, r: set<Slot<T>>, s: Slot<T>, x: Slot<T>)
    requires s != c
    ensures s !in r ==> l - {s} + {x} + {c} + r == l + {c} + r - {s} + {x}
    ensures s !in l ==> l + {c} + (r - {s} + {x}) == l + {c} + r - {s} + {x}
  {}

  lemma ReplacedHere<T>(t: Tree<T>, view: map<T, Key>, x: Slot<T>)
    requires Ordered(t, view) && t.Node? && x.key == t.slot.key
    ensures Slots(Node(t.left, x, t.right)) == Slots(t) - {t.slot} + {x} && Ordered(Node(t.left, x, t.right), view)
  {
    DistinctSlots(t, view);
  }

  /** The place of the slot with the key of m, by the comparison with the root. */
  lemma Placed<T>(t: Tree<T>, m: T, view: map<T, Key>, s: Slot<T>)
    requires Ordered(t, view) && t.Node? && s in Slots(t) && At(view, s.key) == At(view, m)
    ensures var c := Compare(At(view, m), At(view, t.slot.key));
            && (c < 0 ==> s in Slots(t.left)) && (c > 0 ==> s in Slots(t.right)) && (c == 0 ==> s == t.slot)
  {}

  /** An insertion at a taken key keeps the old key object, replaces the value beside it, and changes nothing else. */
  lemma {:induction false} InsertTaken<T>(t: Tree<T>, m: T, view: map<T, Key>, s: Slot<T>)
    requires Ordered(t, view)
    requires s in Slots(t) && At(view, s.key) == At(view, m)
    ensures Lookup(t, m, view) == Some(s)
    ensures Slots(Insert(t, m, view)) == Slots(t) - {s} + {Slot(s.key, m)}
    ensures Ordered(Insert(t, m, view), view)
  {
    LookupExact(t, m, view);
    Placed(t, m, view, s);
    hide Slots;
    var c, x := Compare(At(view, m), At(view, t.slot.key)), Slot(s.key, m);
    if c < 0 {
      InsertTaken(t.left, m, view, s);
      ReplacedLeft(t, Insert(t.left, m, view), view, s, x);
    } else if c > 0 {
      InsertTaken(t.right, m, view, s);
      ReplacedRight(t, Insert(t.right, m, view), view, s, x);
    } else {
      ReplacedHere(t, view, x);
    }
  }

  lemma DistinctSlots<T>(t: Tree<T>, view: map<T, Key>)
    requires Ordered(t, view) && t.Node?
    ensures t.slot !in Slots(t.left) && t.slot !in Slots(t.right) && Slots(t.left) !! Slots(t.right)
  {}

  lemma {:induction false} JoinKeeps<T>(l: Tree<T>, r: Tree<T>, view: map<T, Key>)
    requires Ordered(l, view) && Ordered(r, view)
    requires forall x, y :: x in Slots(l) && y in Slots(r) ==> Compare(At(view, x.key), At(view, y.key)) < 0
    ensures Slots(Join(l, r)) == Slots(l) + Slots(r)
    ensures Ordered(Join(l, r), view)
  {
    if l.Node? {
      JoinKeeps(l.right, r, view);
    }
  }

  /** Removal drops exactly the node found by Lookup. */
  lemma {:induction false} RemoveExact<T>(t: Tree<T>, m: T, view: map<T, Key>)
    requires Ordered(t, view)
    ensures Slots(Remove(t, m, view)) == Slots(t) - (set s | s in Slots(t) && At(view, s.key) == At(view, m))
    ensures Ordered(Remove(t, m, view), view)
  {
    if t.Node? {
      var c := Compare(At(view, m), At(view, t.slot.key));
      if c == 0 {
        JoinKeeps(t.left, t.right, view);
      } else if c < 0 {
        RemoveExact(t.left, m, view);
      } else {
        RemoveExact(t.right, m, view);
      }
    }
  }

  // ----- address search -----

  /** In key order the interval ends never decrease. */
  ghost predicate EndsAscend<T>(t: Tree<T>, view: map<T, Key>)
  {
    forall x, y :: x in Slots(t) && y in Slots(t) && Compare(At(view, x.key), At(view, y.key)) < 0 ==>
                     At(view, x.key).End() <= At(view, y.key).End()
  }

  /** mapping_search answers 0 exactly from the base on, up to the byte before the end; the end may have wrapped. */
  lemma ProbeExactly(k: Key, addr: Word64)
    ensures k.Contains(addr) <==> k.base <= addr < (k.base + k.size) % TWO_TO_64
    ensures Probe(k, addr) == 0 <==> k.Contains(addr)
  {}

  lemma {:induction false} HitContains<T>(t: Tree<T>, addr: Word64, view: map<T, Key>)
    ensures Search(t, addr, view).Some? ==>
              exists s :: s in Slots(t) && s.value == Search(t, addr, view).value && At(view, s.key).Contains(addr)
  {
    if t.Node? {
      assert t.slot in Slots(t);
      HitContains(t.left, addr, view);
      HitContains(t.right, addr, view);
    }
  }

  /** A hit is a node whose interval contains the address, on every shape. */
  lemma SearchSound<T>(t: Tree<T>, addr: Word64, view: map<T, Key>)
    ensures Search(t, addr, view).Some? ==>
              exists s :: && s in Slots(t) && s.value == Search(t, addr, view).value
                          && var k := At(view, s.key); k.base <= addr < (k.base + k.size) % TWO_TO_64
  {
    HitContains(t, addr, view);
    hide Search, Slots;
    if Search(t, addr, view).Some? {
      var s :| s in Slots(t) && s.value == Search(t, addr, view).value && At(view, s.key).Contains(addr);
      ProbeExactly(At(view, s.key), addr);
    }
  }

  lemma {:induction false} SearchMissesNothing<T>(t: Tree<T>, addr: Word64, view: map<T, Key>)
    requires Ordered(t, view) && EndsAscend(t, view)
    ensures (exists s :: s in Slots(t) && At(view, s.key).Contains(addr)) ==> Search(t, addr, view).Some?
  {
    if t.Node? {
      assert t.slot in Slots(t);
      SearchMissesNothing(t.left, addr, view);
      SearchMissesNothing(t.right, addr, view);
      forall s | s in Slots(t) && At(view, s.key).Contains(addr)
        ensures Search(t, addr, view).Some?
      {
        var c := Probe(At(view, t.slot.key), addr);
        if c < 0 {
          assert s in Slots(t.left);
        } else if c > 0 {
          assert s in Slots(t.right);
        }
      }
    }
  }

  /** With ascending ends the descent misses nothing that a scan of all nodes would find. */
  lemma SearchComplete<T>(t: Tree<T>, addr: Word64, view: map<T, Key>)
    requires Ordered(t, view) && EndsAscend(t, view)
    ensures Search(t, addr, view).Some? <==>
            exists s :: s in Slots(t) && var k := At(view, s.key); k.base <= addr < (k.base + k.size) % TWO_TO_64
  {
    SearchSound(t, addr, view);
    SearchMissesNothing(t, addr, view);
    hide Search, Slots, Ordered, EndsAscend;
    forall s | s in Slots(t)
      ensures var k := At(view, s.key); k.Contains(addr) <==> k.base <= addr < (k.base + k.size) % TWO_TO_64
    {
      ProbeExactly(At(view, s.key), addr);
    }
  }

  // ----- the tree as an index of a set of objects -----

  /** The tree files exactly the objects of `live`, each as key and value of one node. */
  ghost predicate Indexes<T>(t: Tree<T>, live: set<T>, view: map<T, Key>) {
    && live <= view.Keys
    && (forall s :: s in Slots(t) ==> s.key == s.value && s.key in live)
    && (forall m :: m in live ==> Slot(m, m) in Slots(t))
    && Ordered(t, view)
  }

  /** The tree after g_tree_steal or g_tree_remove of m and whatever rebalancing follows. */
  function Stolen<T(==)>(t: Tree<T>, m: T, view: map<T, Key>, plan: seq<Turn>): Tree<T>
  {
    Rebalance(Remove(t, m, view), plan)
  }

  lemma StealFromIndex<T>(t: Tree<T>, live: set<T>, view: map<T, Key>, m: T, plan: seq<Turn>)
    requires Indexes(t, live, view) && m in live
    ensures Indexes(Stolen(t, m, view, plan), live - {m}, view - {m})
  {
    assert Slot(m, m) in Slots(t);
    LookupExact(t, m, view);
    RemoveExact(t, m, view);
    RebalanceKeeps(Remove(t, m, view), plan, view);
    IndexFrame(Stolen(t, m, view, plan), live - {m}, view, view - {m});
  }

  /** The tree after g_tree_insert of m and whatever rebalancing follows. */
  function Filed<T(==)>(rest: Tree<T>, m: T, view: map<T, Key>, plan: seq<Turn>): Tree<T>
  {
    Rebalance(Insert(rest, m, view), plan)
  }

  /** The other objects with the same (base, size) as m. */
  ghost function SameKey<T>(live: set<T>, view: map<T, Key>, m: T): set<T> {
    set x | x in live && x != m && At(view, x) == At(view, m)
  }

  lemma FileFree<T>(rest: Tree<T>, live: set<T>, view: map<T, Key>, m: T, plan: seq<Turn>)
    requires m in live && Indexes(rest, live - {m}, view) && live <= view.Keys
    requires forall x :: x in live && x != m ==> At(view, x) != At(view, m)
    ensures Indexes(Filed(rest, m, view, plan), live, view)
  {
    InsertFree(rest, m, view);
    RebalanceKeeps(Insert(rest, m, view), plan, view);
  }

  lemma FileTaken<T>(rest: Tree<T>, live: set<T>, view: map<T, Key>, m: T, plan: seq<Turn>, x: T)
    requires m in live && Indexes(rest, live - {m}, view) && live <= view.Keys
    requires x in live && x != m && At(view, x) == At(view, m)
    ensures !Indexes(Filed(rest, m, view, plan), live, view)
  {
    assert Slot(x, x) in Slots(rest);
    InsertTaken(rest, m, view, Slot(x, x));
    RebalanceKeeps(Insert(rest, m, view), plan, view);
    assert Slot(x, m) in Slots(Filed(rest, m, view, plan));
  }

  /** Filing m keeps the index exact if and only if no other live object has m's key. */
  lemma FileExact<T>(rest: Tree<T>, live: set<T>, view: map<T, Key>, m: T, plan: seq<Turn>)
    requires m in live && Indexes(rest, live - {m}, view - {m}) && live <= view.Keys
    ensures Indexes(Filed(rest, m, view, plan), live, view) <==> SameKey(live, view, m) == {}
  {
    IndexFrame(rest, live - {m}, view - {m}, view);
    if x :| x in SameKey(live, view, m) {
      FileTaken(rest, live, view, m, plan, x);
    } else {
      assert forall x :: x in live && x != m ==> x !in SameKey(live, view, m);
      FileFree(rest, live, view, m, plan);
    }
  }

  lemma SearchIndex<T>(t: Tree<T>, live: set<T>, view: map<T, Key>, addr: Word64)
    requires Indexes(t, live, view)
    ensures Search(t, addr, view).Some? ==>
              Search(t, addr, view).value in live && At(view, Search(t, addr, view).value).Contains(addr)
    ensures (forall x, y :: x in live && y in live && Compare(At(view, x), At(view, y)) < 0 ==>
                              At(view, x).End() <= At(view, y).End()) ==>
              (Search(t, addr, view).Some? <==> exists x :: x in live && At(view, x).Contains(addr))
  {
    HitContains(t, addr, view);
    if forall x, y :: x in live && y in live && Compare(At(view, x), At(view, y)) < 0 ==>
                        At(view, x).End() <= At(view, y).End() {
      SearchMissesNothing(t, addr, view);
      if x :| x in live && At(view, x).Contains(addr) {
        assert Slot(x, x) in Slots(t);
      }
    }
  }

  lemma IndexFrame<T>(t: Tree<T>, live: set<T>, view: map<T, Key>, view': map<T, Key>)
    requires Indexes(t, live, view) && live <= view'.Keys
    requires forall x :: x in live ==> At(view', x) == At(view, x)
    ensures Indexes(t, live, view')
  {
    OrderedFrame(t, view, view');
  }
}
