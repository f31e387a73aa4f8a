/** The objects a value is made of, and the count the calls of a run keep of them. */
module Objects {
  import opened Schema
  import opened Octets

  // -------------------------------------------------------------- ownership

  /** The number of objects that make up a value. */
  function Nodes(v: Value): nat
    decreases v
  {
    match v
    case Atom(_) => 1
    case Struct(ss) => 1 + NodesOfSlots(ss)
    case Items(xs) => 1 + NodesOfItems(xs)
  }

  function NodesOfItems(xs: seq<Value>): nat
    decreases xs
  {
    if xs == [] then 0 else Nodes(xs[0]) + NodesOfItems(xs[1..])
  }

  function NodesOfSlots(ss: seq<Slot>): nat
    decreases ss
  {
    if ss == [] then 0 else NodesOfSlot(ss[0]) + NodesOfSlots(ss[1..])
  }

  function NodesOfSlot(s: Slot): nat
    decreases s
  {
    if s.Some? then Nodes(s.value) else 0
  }

  // ------------------------------------------------- what is counted

  /** Where the objects of a value are: the root at the empty path, and whatever a
      field that is set, or an element, leads to. */
  predicate IsPlace(v: Value, path: seq<nat>)
    decreases v
  {
    path == [] || match v
                  case Atom(_) => false
                  case Struct(ss) =>
                    path[0] < |ss| && ss[path[0]].Some? && IsPlace(ss[path[0]].value, path[1..])
                  case Items(xs) => path[0] < |xs| && IsPlace(xs[path[0]], path[1..])
  }

  function Places(v: Value): (r: set<seq<nat>>)
    decreases v
  {
    match v
    case Atom(_) => {[]}
    case Struct(ss) => {[]} + PlacesOfSlots(ss, 0)
    case Items(xs) => {[]} + PlacesOfItems(xs, 0)
  }

  /** The places in the slots, the first of which is number `at`. */
  function PlacesOfSlots(ss: seq<Slot>, at: nat): (r: set<seq<nat>>)
    decreases ss
  {
    if ss == [] then {} else Below(at, PlacesOfSlot(ss[0])) + PlacesOfSlots(ss[1..], at + 1)
  }

  function PlacesOfSlot(s: Slot): (r: set<seq<nat>>)
    decreases s
  {
    if s.Some? then Places(s.value) else {}
  }

  function PlacesOfItems(xs: seq<Value>, at: nat): (r: set<seq<nat>>)
    decreases xs
  {
    if xs == [] then {} else Below(at, Places(xs[0])) + PlacesOfItems(xs[1..], at + 1)
  }

  function Below(at: nat, paths: set<seq<nat>>): set<seq<nat>> {
    set p <- paths :: [at] + p
  }

  lemma InBelow(at: nat, paths: set<seq<nat>>, path: seq<nat>)
    ensures path in Below(at, paths) <==> path != [] && path[0] == at && path[1..] in paths
  {
    if path != [] && path[0] == at {
      assert path == [at] + path[1..];
    }
    if p :| p in paths && path == [at] + p {
      assert path[1..] == p;
    }
  }

  lemma {:induction false} BelowSize(at: nat, paths: set<seq<nat>>)
    ensures |Below(at, paths)| == |paths|
    decreases paths
  {
    if paths != {} {
      var p :| p in paths;
      var less := paths - {p};
      BelowSize(at, less);
      forall q ensures q in Below(at, paths) <==> q in Below(at, less) + {[at] + p} {
        InBelow(at, paths, q);
        InBelow(at, less, q);
        if q != [] && q[0] == at && q[1..] == p {
          assert q == [at] + p;
        }
        assert ([at] + p)[1..] == p;
      }
      assert Below(at, paths) == Below(at, less) + {[at] + p};
      InBelow(at, less, [at] + p);
      assert ([at] + p)[1..] == p;
    }
  }

  lemma {:induction false} PlacesExact(v: Value)
    ensures forall path :: path in Places(v) <==> IsPlace(v, path)
    ensures |Places(v)| == Nodes(v)
    decreases v
  {
    hide Below, PlacesOfSlots, PlacesOfItems, NodesOfSlots, NodesOfItems;
    match v
    case Atom(_) =>
    case Struct(ss) => PlacesOfSlotsExact(ss, 0);
    case Items(xs) => PlacesOfItemsExact(xs, 0);
  }

  predicate InSlot(s: Slot, path: seq<nat>) {
    s.Some? && IsPlace(s.value, path)
  }

  predicate InSlots(ss: seq<Slot>, at: nat, path: seq<nat>) {
    path != [] && at <= path[0] < at + |ss| && InSlot(ss[path[0] - at], path[1..])
  }

  predicate InItems(xs: seq<Value>, at: nat, path: seq<nat>) {
    path != [] && at <= path[0] < at + |xs| && IsPlace(xs[path[0] - at], path[1..])
  }

  lemma {:induction false} PlacesOfSlotsExact(ss: seq<Slot>, at: nat)
    ensures forall path :: path in PlacesOfSlots(ss, at) <==> InSlots(ss, at, path)
    ensures |PlacesOfSlots(ss, at)| == NodesOfSlots(ss)
    decreases ss
  {
    hide Below, Places, PlacesOfSlot, IsPlace, InSlot, InSlots, NodesOfSlot;
    if ss != [] {
      var own := PlacesOfSlot(ss[0]);
      var head, tail := Below(at, own), PlacesOfSlots(ss[1..], at + 1);
      PlacesOfSlotExact(ss[0]);
      PlacesOfSlotsExact(ss[1..], at + 1);
      BelowSize(at, own);
      forall path ensures path in head <==> path != [] && path[0] == at && InSlot(ss[0], path[1..]) {
        InBelow(at, own, path);
      }
      forall path ensures path in head + tail <==> InSlots(ss, at, path)
                  ensures !(path in head && path in tail) {
        InFirstOrLater(ss, at, path);
      }
      assert head !! tail;
    } else {
      forall path ensures !InSlots(ss, at, path) {
        InNoSlots(at, path);
      }
    }
  }

  lemma InFirstOrLater(ss: seq<Slot>, at: nat, path: seq<nat>)
    requires ss != []
    ensures InSlots(ss, at, path) <==>
            (path != [] && path[0] == at && InSlot(ss[0], path[1..])) || InSlots(ss[1..], at + 1, path)
    ensures InSlots(ss[1..], at + 1, path) ==> path[0] != at
  {
    hide InSlot;
  }

  lemma InNoSlots(at: nat, path: seq<nat>)
    ensures !InSlots([], at, path)
  {
  }

  lemma {:induction false} PlacesOfSlotExact(s: Slot)
    ensures forall path :: path in PlacesOfSlot(s) <==> InSlot(s, path)
    ensures |PlacesOfSlot(s)| == NodesOfSlot(s)
    decreases s
  {
    hide Places, IsPlace, Nodes;
    if s.Some? {
      PlacesExact(s.value);
    }
  }

  lemma {:induction false} PlacesOfItemsExact(xs: seq<Value>, at: nat)
    ensures forall path :: path in PlacesOfItems(xs, at) <==> InItems(xs, at, path)
    ensures |PlacesOfItems(xs, at)| == NodesOfItems(xs)
    decreases xs
  {
    hide Below, Places, IsPlace, InItems, Nodes;
    if xs != [] {
      var own := Places(xs[0]);
      var head, tail := Below(at, own), PlacesOfItems(xs[1..], at + 1);
      PlacesExact(xs[0]);
      PlacesOfItemsExact(xs[1..], at + 1);
      BelowSize(at, own);
      forall path ensures path in head <==> path != [] && path[0] == at && IsPlace(xs[0], path[1..]) {
        InBelow(at, own, path);
      }
      forall path ensures path in head + tail <==> InItems(xs, at, path)
                  ensures !(path in head && path in tail) {
        InFirstOrLaterItem(xs, at, path);
      }
      assert head !! tail;
    } else {
      forall path ensures !InItems(xs, at, path) {
        InNoItems(at, path);
      }
    }
  }

  lemma InFirstOrLaterItem(xs: seq<Value>, at: nat, path: seq<nat>)
    requires xs != []
    ensures InItems(xs, at, path) <==>
            (path != [] && path[0] == at && IsPlace(xs[0], path[1..])) || InItems(xs[1..], at + 1, path)
    ensures InItems(xs[1..], at + 1, path) ==> path[0] != at
  {
    hide IsPlace;
  }

  lemma InNoItems(at: nat, path: seq<nat>)
    ensures !InItems([], at, path)
  {
  }

  /** The count is that of all the places there are in a value. */
  lemma NodesExact(v: Value, all: set<seq<nat>>)
    requires forall path :: path in all <==> IsPlace(v, path)
    ensures Nodes(v) == |all|
  {
    PlacesExact(v);
    assert all == Places(v);
  }

  // -------------------------------------------------------- how it changes

  lemma {:induction false} NodesAppend(xs: seq<Value>, x: Value)
    ensures NodesOfItems(xs + [x]) == NodesOfItems(xs) + Nodes(x)
  {
    if xs == [] {
      assert xs + [x] == [x];
    } else {
      NodesAppend(xs[1..], x);
      assert (xs + [x])[1..] == xs[1..] + [x];
    }
  }

  lemma {:induction false} NodesUpdate(ss: seq<Slot>, i: nat, s: Slot)
    requires i < |ss|
    ensures NodesOfSlots(ss[i := s]) == NodesOfSlots(ss) - NodesOfSlot(ss[i]) + NodesOfSlot(s)
  {
    if i > 0 {
      NodesUpdate(ss[1..], i - 1, s);
      assert ss[i := s][1..] == ss[1..][i - 1 := s];
    } else {
      assert ss[i := s][1..] == ss[1..];
    }
  }

  lemma {:induction false} NodesOfNothing(ss: seq<Slot>)
    requires forall i | 0 <= i < |ss| :: ss[i] == None
    ensures NodesOfSlots(ss) == 0
  {
    if ss != [] {
      NodesOfNothing(ss[1..]);
    }
  }

  /** What the calls of a run do besides their results: how many objects are
      allocated and not freed, and whether some d2i was given a negative length
      and looked behind its window. */
  class Heap {
    var live: int
    var strayed: bool

    constructor ()
      ensures live == 0 && !strayed
    {
      live, strayed := 0, false;
    }

    method Allocate()
      modifies `live
      ensures live == old(live) + 1
    {
      live := live + 1;
    }

    /** The free function of a type: the object and all it holds. */
    method Free(n: nat)
      modifies `live
      ensures live == old(live) - n
    {
      live := live - n;
    }
  }
}
