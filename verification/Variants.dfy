/** The places of an object that can refer to other objects, as they are nested (src/custom_object.cpp): pointers, and
  variables that hold lists and maps of further values.  What the collector does on them is what it does on the
  sequence of their leaves, which is how the garbage collection is modelled. */
module Variants {
  import opened GarbageCollection
  import opened Wrappers

  /** A null, a plain value or an object is a leaf; the keys of a map are not looked into. */
  datatype Variant = Leaf(slot: Slot) | List(items: Values) | Map(keys: seq<string>, values: Values)

  datatype Values = End | More(first: Variant, rest: Values)

  function Leaves(v: Variant): seq<Slot> {
    match v
    case Leaf(slot) => [slot]
    case List(items) => AllLeaves(items)
    case Map(_, values) => AllLeaves(values)
  }

  function AllLeaves(vs: Values): seq<Slot> {
    match vs
    case End => []
    case More(first, rest) => Leaves(first) + AllLeaves(rest)
  }

  /** Two values with the same nesting and the same keys. */
  predicate SameShape(v: Variant, w: Variant) {
    match v
    case Leaf(_) => w.Leaf?
    case List(items) => w.List? && AllSameShape(items, w.items)
    case Map(keys, values) => w.Map? && keys == w.keys && AllSameShape(values, w.values)
  }

  predicate AllSameShape(vs: Values, ws: Values) {
    match vs
    case End => ws.End?
    case More(first, rest) => ws.More? && SameShape(first, ws.first) && AllSameShape(rest, ws.rest)
  }

  /** A pointer is cleared if it refers to an object. */
  function ExtractedSlot(s: Slot, owner: nat, base: nat): (Slot, seq<Reference>) {
    if s.Object? then (Null, [Reference(Some(owner), s.target, owner, base)]) else (s, [])
  }

  /** The value without the objects in it, and the references pulled out of it; its first leaf is number `base` of the
      owner's. */
  function Extracted(v: Variant, owner: nat, base: nat): (Variant, seq<Reference>) {
    match v
    case Leaf(slot) =>
      var r := ExtractedSlot(slot, owner, base); (Leaf(r.0), r.1)
    case List(items) =>
      var r := AllExtracted(items, owner, base); (List(r.0), r.1)
    case Map(keys, values) =>
      var r := AllExtracted(values, owner, base); (Map(keys, r.0), r.1)
  }

  function AllExtracted(vs: Values, owner: nat, base: nat): (Values, seq<Reference>) {
    match vs
    case End => (End, [])
    case More(first, rest) =>
      var f := Extracted(first, owner, base);
      var r := AllExtracted(rest, owner, base + |Leaves(first)|);
      (More(f.0, r.0), f.1 + r.1)
  }

  /** The value with an object put into leaf `i`. */
  function PutBack(v: Variant, i: nat, target: nat): Variant
    requires i < |Leaves(v)|
  {
    match v
    case Leaf(_) => Leaf(Object(target))
    case List(items) => List(AllPutBack(items, i, target))
    case Map(keys, values) => Map(keys, AllPutBack(values, i, target))
  }

  function AllPutBack(vs: Values, i: nat, target: nat): Values
    requires i < |AllLeaves(vs)|
  {
    var n := |Leaves(vs.first)|;
    if i < n then More(PutBack(vs.first, i, target), vs.rest)
    else More(vs.first, AllPutBack(vs.rest, i - n, target))
  }

  // ---------------------------------------------------------------------------------------------
  // The nesting makes no difference
  // ---------------------------------------------------------------------------------------------

  /** The references of some slots, the first of them being number `base`. */
  function ReferencesFrom(owner: nat, base: nat, s: seq<Slot>): seq<Reference>
    decreases |s|
  {
    if s == [] then []
    else ExtractedSlot(s[0], owner, base).1 + ReferencesFrom(owner, base + 1, s[1..])
  }

  lemma {:induction false} ReferencesFromSum(owner: nat, base: nat, s: seq<Slot>, t: seq<Slot>)
    ensures ReferencesFrom(owner, base, s + t)
            == ReferencesFrom(owner, base, s) + ReferencesFrom(owner, base + |s|, t)
    decreases |s|
  {
    hide ExtractedSlot;
    if s == [] {
      assert s + t == t;
    } else {
      assert (s + t)[1..] == s[1..] + t && (s + t)[0] == s[0];
      ReferencesFromSum(owner, base + 1, s[1..], t);
    }
  }

  lemma {:induction false} ReferencesFromStart(owner: nat, s: seq<Slot>)
    ensures ReferencesFrom(owner, 0, s) == ReferencesOf(owner, s)
  {
    if s != [] {
      var before, last := s[..|s| - 1], s[|s| - 1];
      assert before + [last] == s;
      ReferencesFromStart(owner, before);
      ReferencesFromSum(owner, 0, before, [last]);
      assert ReferencesFrom(owner, |s|, [last][1..]) == [];
    }
  }

  lemma EmptiedSum(s: seq<Slot>, t: seq<Slot>)
    ensures Emptied(s + t) == Emptied(s) + Emptied(t)
  {
  }

  lemma PointerIsFlat(s: Slot, owner: nat, base: nat)
    ensures var (t, refs) := ExtractedSlot(s, owner, base);
      [t] == Emptied([s]) && refs == ReferencesFrom(owner, base, [s])
  {
    assert ReferencesFrom(owner, base + 1, [s][1..]) == [];
  }

  /** Extraction finds the objects of the leaves in order, empties those leaves and keeps the nesting. */
  lemma {:induction false} ExtractionIsFlat(v: Variant, owner: nat, base: nat)
    ensures var (w, refs) := Extracted(v, owner, base);
      && Leaves(w) == Emptied(Leaves(v)) && SameShape(v, w)
      && refs == ReferencesFrom(owner, base, Leaves(v))
  {
    match v
    case Leaf(slot) => PointerIsFlat(slot, owner, base);
    case List(items) => AllExtractionIsFlat(items, owner, base);
    case Map(_, values) => AllExtractionIsFlat(values, owner, base);
  }

  lemma {:induction false} AllExtractionIsFlat(vs: Values, owner: nat, base: nat)
    ensures var (ws, refs) := AllExtracted(vs, owner, base);
      && AllLeaves(ws) == Emptied(AllLeaves(vs)) && AllSameShape(vs, ws)
      && refs == ReferencesFrom(owner, base, AllLeaves(vs))
  {
    hide Emptied, ReferencesFrom;
    match vs
    case End => NothingIsFlat(owner, base);
    case More(first, rest) =>
      var n := |Leaves(first)|;
      ExtractionIsFlat(first, owner, base);
      AllExtractionIsFlat(rest, owner, base + n);
      EmptiedSum(Leaves(first), AllLeaves(rest));
      ReferencesFromSum(owner, base, Leaves(first), AllLeaves(rest));
  }

  lemma NothingIsFlat(owner: nat, base: nat)
    ensures Emptied([]) == [] && ReferencesFrom(owner, base, []) == []
  {
  }

  /** Putting an object back changes its leaf, no other one, and not the nesting. */
  lemma {:induction false} PuttingBackIsFlat(v: Variant, i: nat, target: nat)
    requires i < |Leaves(v)|
    ensures Leaves(PutBack(v, i, target)) == Leaves(v)[i := Object(target)]
    ensures SameShape(v, PutBack(v, i, target))
  {
    match v
    case Leaf(_) =>
    case List(items) => AllPuttingBackIsFlat(items, i, target);
    case Map(_, values) => AllPuttingBackIsFlat(values, i, target);
  }

  lemma {:induction false} AllPuttingBackIsFlat(vs: Values, i: nat, target: nat)
    requires i < |AllLeaves(vs)|
    ensures AllLeaves(AllPutBack(vs, i, target)) == AllLeaves(vs)[i := Object(target)]
    ensures AllSameShape(vs, AllPutBack(vs, i, target))
  {
    var n := |Leaves(vs.first)|;
    if i < n {
      PuttingBackIsFlat(vs.first, i, target);
      AllSameAsItself(vs.rest);
    } else {
      AllPuttingBackIsFlat(vs.rest, i - n, target);
      SameAsItself(vs.first);
    }
  }

  lemma {:induction false} SameAsItself(v: Variant)
    ensures SameShape(v, v)
  {
    match v
    case Leaf(_) =>
    case List(items) => AllSameAsItself(items);
    case Map(_, values) => AllSameAsItself(values);
  }

  lemma {:induction false} AllSameAsItself(vs: Values)
    ensures AllSameShape(vs, vs)
  {
    if vs.More? {
      SameAsItself(vs.first);
      AllSameAsItself(vs.rest);
    }
  }

  /** The leaves and the nesting are all there is: an object that has its leaves back is the object it was. */
  lemma {:induction false} LeavesTellAll(v: Variant, w: Variant)
    requires SameShape(v, w)
    ensures |Leaves(v)| == |Leaves(w)|
    ensures Leaves(v) == Leaves(w) ==> v == w
  {
    match v
    case Leaf(slot) => assert Leaves(v)[0] == slot && Leaves(w)[0] == w.slot;
    case List(items) => AllLeavesTellAll(items, w.items);
    case Map(_, values) => AllLeavesTellAll(values, w.values);
  }

  lemma {:induction false} AllLeavesTellAll(vs: Values, ws: Values)
    requires AllSameShape(vs, ws)
    ensures |AllLeaves(vs)| == |AllLeaves(ws)|
    ensures AllLeaves(vs) == AllLeaves(ws) ==> vs == ws
  {
    if vs.More? {
      LeavesTellAll(vs.first, ws.first);
      AllLeavesTellAll(vs.rest, ws.rest);
      if AllLeaves(vs) == AllLeaves(ws) {
        var n := |Leaves(vs.first)|;
        assert Leaves(vs.first) == AllLeaves(vs)[..n] && Leaves(ws.first) == AllLeaves(ws)[..n];
        assert AllLeaves(vs.rest) == AllLeaves(vs)[n..] && AllLeaves(ws.rest) == AllLeaves(ws)[n..];
      }
    }
  }

  /** All the values of an object: three pointers and two stores of variables. */
  datatype Places = Places(lastHitBy: Slot, standingOn: Slot, parent: Slot, vars: Values, tmpVars: Values)

  function Pointers(p: Places): seq<Slot> {
    [p.lastHitBy] + [p.standingOn] + [p.parent]
  }

  function Slots(p: Places): seq<Slot> {
    Pointers(p) + AllLeaves(p.vars) + AllLeaves(p.tmpVars)
  }

  function ExtractedPlaces(p: Places, owner: nat): (Places, seq<Reference>) {
    var a, b := ExtractedSlot(p.lastHitBy, owner, 0), ExtractedSlot(p.standingOn, owner, 1);
    var c := ExtractedSlot(p.parent, owner, 2);
    var v := AllExtracted(p.vars, owner, 3);
    var t := AllExtracted(p.tmpVars, owner, 3 + |AllLeaves(p.vars)|);
    (Places(a.0, b.0, c.0, v.0, t.0), a.1 + b.1 + c.1 + v.1 + t.1)
  }

  lemma PointersAreFlat(p: Places, owner: nat)
    ensures var a, b := ExtractedSlot(p.lastHitBy, owner, 0), ExtractedSlot(p.standingOn, owner, 1);
      var c := ExtractedSlot(p.parent, owner, 2);
      [a.0] + [b.0] + [c.0] == Emptied(Pointers(p)) && a.1 + b.1 + c.1 == ReferencesFrom(owner, 0, Pointers(p))
  {
    hide ReferencesFrom, Emptied, ExtractedSlot;
    PointerIsFlat(p.lastHitBy, owner, 0);
    PointerIsFlat(p.standingOn, owner, 1);
    PointerIsFlat(p.parent, owner, 2);
    EmptiedSum([p.lastHitBy], [p.standingOn]);
    EmptiedSum([p.lastHitBy] + [p.standingOn], [p.parent]);
    ReferencesFromSum(owner, 0, [p.lastHitBy], [p.standingOn]);
    ReferencesFromSum(owner, 0, [p.lastHitBy] + [p.standingOn], [p.parent]);
  }

  lemma ThreePointers(p: Places)
    ensures Pointers(p) == [p.lastHitBy] + [p.standingOn] + [p.parent] && |Pointers(p)| == 3
  {
  }

  /** The extraction from an object is that of the flat model: its slots are emptied, its references are found in
      order, and the nesting of its variables stays. */
  lemma PlacesAreFlat(p: Places, owner: nat)
    ensures var (q, refs) := ExtractedPlaces(p, owner);
      && Slots(q) == Emptied(Slots(p)) && refs == ReferencesOf(owner, Slots(p))
      && AllSameShape(p.vars, q.vars) && AllSameShape(p.tmpVars, q.tmpVars)
  {
    hide Emptied, ReferencesFrom, ReferencesOf, ExtractedSlot, AllExtracted, Pointers;
    var s, n := Pointers(p), |AllLeaves(p.vars)|;
    PointersAreFlat(p, owner);
    ThreePointers(p);
    assert Pointers(ExtractedPlaces(p, owner).0) == Emptied(s) by {
      ThreePointers(ExtractedPlaces(p, owner).0);
    }
    AllExtractionIsFlat(p.vars, owner, 3);
    AllExtractionIsFlat(p.tmpVars, owner, 3 + n);
    EmptiedSum(s, AllLeaves(p.vars));
    EmptiedSum(s + AllLeaves(p.vars), AllLeaves(p.tmpVars));
    ReferencesFromSum(owner, 0, s, AllLeaves(p.vars));
    ReferencesFromSum(owner, 0, s + AllLeaves(p.vars), AllLeaves(p.tmpVars));
    ReferencesFromStart(owner, Slots(p));
  }

  // ---------------------------------------------------------------------------------------------
  // Putting back
  // ---------------------------------------------------------------------------------------------

  predicate SamePlaces(p: Places, q: Places) {
    AllSameShape(p.vars, q.vars) && AllSameShape(p.tmpVars, q.tmpVars)
  }

  /** An object put back into place `i`: one of the three pointers, or a leaf of one of the two stores. */
  function PutBackPlaces(p: Places, i: nat, target: nat): Places
    requires i < |Slots(p)|
  {
    var n := |AllLeaves(p.vars)|;
    if i == 0 then p.(lastHitBy := Object(target))
    else if i == 1 then p.(standingOn := Object(target))
    else if i == 2 then p.(parent := Object(target))
    else if i < 3 + n then p.(vars := AllPutBack(p.vars, i - 3, target))
    else p.(tmpVars := AllPutBack(p.tmpVars, i - 3 - n, target))
  }

  /** Putting an object back into an object changes its slot, no other one, and not the nesting. */
  lemma PuttingBackPlacesIsFlat(p: Places, i: nat, target: nat)
    requires i < |Slots(p)|
    ensures Slots(PutBackPlaces(p, i, target)) == Slots(p)[i := Object(target)]
    ensures SamePlaces(p, PutBackPlaces(p, i, target))
  {
    AllSameAsItself(p.vars);
    AllSameAsItself(p.tmpVars);
    var n := |AllLeaves(p.vars)|;
    if 3 <= i < 3 + n {
      AllPuttingBackIsFlat(p.vars, i - 3, target);
    } else if 3 + n <= i {
      AllPuttingBackIsFlat(p.tmpVars, i - 3 - n, target);
    }
  }

  lemma {:induction false} ShapesChain(u: Variant, v: Variant, w: Variant)
    requires SameShape(u, v) && SameShape(v, w)
    ensures SameShape(u, w)
  {
    match u
    case Leaf(_) =>
    case List(items) => AllShapesChain(items, v.items, w.items);
    case Map(_, values) => AllShapesChain(values, v.values, w.values);
  }

  lemma {:induction false} AllShapesChain(us: Values, vs: Values, ws: Values)
    requires AllSameShape(us, vs) && AllSameShape(vs, ws)
    ensures AllSameShape(us, ws)
  {
    if us.More? {
      ShapesChain(us.first, vs.first, ws.first);
      AllShapesChain(us.rest, vs.rest, ws.rest);
    }
  }

  /** The slots of an object after references have been put back into them. */
  function SlotsAfter(s: seq<Slot>, refs: seq<Reference>): (r: seq<Slot>)
    requires forall k :: 0 <= k < |refs| ==> refs[k].index < |s|
    ensures |r| == |s|
  {
    if refs == [] then s
    else
      var last := refs[|refs| - 1];
      SlotsAfter(s, refs[..|refs| - 1])[last.index := Object(last.target)]
  }

  /** An object after references of it have been put back, in any order. */
  function Refilled(p: Places, refs: seq<Reference>): (q: Places)
    requires forall k :: 0 <= k < |refs| ==> refs[k].index < |Slots(p)|
    ensures Slots(q) == SlotsAfter(Slots(p), refs) && SamePlaces(p, q)
  {
    if refs == [] then
      AllSameAsItself(p.vars);
      AllSameAsItself(p.tmpVars);
      p
    else
      var last := refs[|refs| - 1];
      var before := Refilled(p, refs[..|refs| - 1]);
      PuttingBackPlacesIsFlat(before, last.index, last.target);
      var q := PutBackPlaces(before, last.index, last.target);
      AllShapesChain(p.vars, before.vars, q.vars);
      AllShapesChain(p.tmpVars, before.tmpVars, q.tmpVars);
      q
  }

  /** An object whose slots and nesting are the same before and after is the same in every pointer and variable. */
  lemma SlotsTellAll(p: Places, q: Places)
    requires AllSameShape(p.vars, q.vars) && AllSameShape(p.tmpVars, q.tmpVars)
    ensures Slots(p) == Slots(q) <==> p == q
  {
    AllLeavesTellAll(p.vars, q.vars);
    AllLeavesTellAll(p.tmpVars, q.tmpVars);
    if Slots(p) == Slots(q) {
      var s, t, n := Slots(p), Slots(q), 3 + |AllLeaves(p.vars)|;
      assert s[0] == t[0] && s[1] == t[1] && s[2] == t[2];
      assert AllLeaves(p.vars) == s[3..n] && AllLeaves(q.vars) == t[3..n];
      assert AllLeaves(p.tmpVars) == s[n..] && AllLeaves(q.tmpVars) == t[n..];
    }
  }

  /** An object with the nesting of `was` and the slots that the collector leaves: a safe one is as it was before, in
      every pointer and every variable, and any other is as the extraction left it. */
  lemma CollectedPlaces(was: Places, now: Places, owner: nat, safe: set<nat>)
    requires SamePlaces(was, now)
    requires Slots(now) == if owner in safe then Slots(was) else Emptied(Slots(was))
    ensures now == if owner in safe then was else ExtractedPlaces(was, owner).0
  {
    hide Slots, Emptied, ExtractedPlaces;
    var emptied := ExtractedPlaces(was, owner).0;
    PlacesAreFlat(was, owner);
    SamePlacesFromOther(was, emptied, now);
    SlotsTellAll(was, now);
    SlotsTellAll(emptied, now);
  }

  lemma SamePlacesFromOther(p: Places, q: Places, r: Places)
    requires SamePlaces(p, q) && SamePlaces(p, r)
    ensures SamePlaces(q, r)
  {
    AllShapesTurn(p.vars, q.vars);
    AllShapesTurn(p.tmpVars, q.tmpVars);
    AllShapesChain(q.vars, p.vars, r.vars);
    AllShapesChain(q.tmpVars, p.tmpVars, r.tmpVars);
  }

  lemma {:induction false} ShapesTurn(v: Variant, w: Variant)
    requires SameShape(v, w)
    ensures SameShape(w, v)
  {
    match v
    case Leaf(_) =>
    case List(items) => AllShapesTurn(items, w.items);
    case Map(_, values) => AllShapesTurn(values, w.values);
  }

  lemma {:induction false} AllShapesTurn(vs: Values, ws: Values)
    requires AllSameShape(vs, ws)
    ensures AllSameShape(ws, vs)
  {
    if vs.More? {
      ShapesTurn(vs.first, ws.first);
      AllShapesTurn(vs.rest, ws.rest);
    }
  }

  lemma {:induction false} SlotsAfterInFront(s: seq<Slot>, x: Slot, refs: seq<Reference>)
    requires forall k :: 0 <= k < |refs| ==> refs[k].index < |s|
    ensures SlotsAfter(s + [x], refs) == SlotsAfter(s, refs) + [x]
    decreases |refs|
  {
    if refs != [] {
      SlotsAfterInFront(s, x, refs[..|refs| - 1]);
    }
  }

  /** The references pulled out of some slots, all put back, make these slots again. */
  lemma {:induction false} AllPutBackAgain(owner: nat, s: seq<Slot>)
    ensures forall k :: 0 <= k < |ReferencesOf(owner, s)| ==> ReferencesOf(owner, s)[k].index < |s|
    ensures SlotsAfter(Emptied(s), ReferencesOf(owner, s)) == s
  {
    hide ReferencesOf, Emptied, SlotsAfter;
    if s == [] {
      NothingPutBack(owner);
    } else {
      var before, last := s[..|s| - 1], s[|s| - 1];
      var refs, empty := ReferencesOf(owner, before), if last.Object? then Null else last;
      AllPutBackAgain(owner, before);
      assert s == before + [last];
      LastIsEmptied(before, last);
      LastReference(owner, before, last);
      SlotsAfterInFront(Emptied(before), empty, refs);
      if last.Object? {
        SlotsAfterOneMore(Emptied(s), refs, Reference(Some(owner), last.target, owner, |before|));
      }
    }
  }

  lemma NothingPutBack(owner: nat)
    ensures ReferencesOf(owner, []) == [] && SlotsAfter(Emptied([]), []) == []
  {
  }

  lemma LastReference(owner: nat, s: seq<Slot>, x: Slot)
    ensures ReferencesOf(owner, s + [x])
            == if x.Object? then ReferencesOf(owner, s) + [Reference(Some(owner), x.target, owner, |s|)]
               else ReferencesOf(owner, s)
  {
    assert (s + [x])[..|s|] == s;
  }

  lemma SlotsAfterOneMore(s: seq<Slot>, refs: seq<Reference>, r: Reference)
    requires r.index < |s| && forall k :: 0 <= k < |refs| ==> refs[k].index < |s|
    ensures SlotsAfter(s, refs + [r]) == SlotsAfter(s, refs)[r.index := Object(r.target)]
  {
    assert (refs + [r])[..|refs|] == refs;
  }

  lemma LastIsEmptied(s: seq<Slot>, x: Slot)
    ensures Emptied(s + [x]) == Emptied(s) + [if x.Object? then Null else x]
  {
  }

  /** An object that gets back all the references pulled out of it is the object that it was. */
  lemma RefilledIsWhole(p: Places, owner: nat)
    ensures var (q, refs) := ExtractedPlaces(p, owner);
      && (forall k :: 0 <= k < |refs| ==> refs[k].index < |Slots(q)|)
      && Refilled(q, refs) == p
  {
    hide Slots, Emptied, ReferencesOf, SlotsAfter, ExtractedPlaces;
    var (q, refs) := ExtractedPlaces(p, owner);
    PlacesAreFlat(p, owner);
    AllPutBackAgain(owner, Slots(p));
    var r := Refilled(q, refs);
    AllShapesChain(p.vars, q.vars, r.vars);
    AllShapesChain(p.tmpVars, q.tmpVars, r.tmpVars);
    CollectedPlaces(p, r, owner, {owner});
  }

  /** The references are pulled out of every object. */
  method ExtractPlaces(places: array<Places>) returns (refs: seq<seq<Reference>>)
    modifies places
    ensures |refs| == places.Length
    ensures forall o :: 0 <= o < places.Length ==> (places[o], refs[o]) == ExtractedPlaces(old(places[o]), o)
  {
    hide ExtractedPlaces;
    refs := [];
    for o := 0 to places.Length
      invariant |refs| == o
      invariant forall x :: 0 <= x < o ==> (places[x], refs[x]) == ExtractedPlaces(old(places[x]), x)
      invariant forall x :: o <= x < places.Length ==> places[x] == old(places[x])
    {
      var (emptied, found) := ExtractedPlaces(places[o], o);
      places[o] := emptied;
      refs := refs + [found];
    }
  }

  /** The collection of objects with nested variables, whose slots are those of the heap: the safe ones get their
      references back and are the objects that they were, the others stay as the extraction left them, and all of them
      have the slots that the heap has. */
  method CollectPlaces(heap: Heap, places: array<Places>, ghost outside: seq<nat>)
      returns (safe: set<nat>, released: set<nat>)
    requires places.Length == heap.slots.Length
    requires forall o :: 0 <= o < places.Length ==> heap.slots[o] == Slots(places[o])
    requires Accounted(heap.refcount[..], heap.slots[..], outside)
    modifies heap.refcount, heap.slots, places
    ensures forall o: nat :: o in safe <==> o < places.Length && Reachable(old(heap.slots[..]), outside, o)
    ensures released == set o | 0 <= o < places.Length && o !in safe
    ensures forall o :: 0 <= o < places.Length ==>
              places[o] == if o in safe then old(places[o]) else ExtractedPlaces(old(places[o]), o).0
    ensures forall o :: 0 <= o < places.Length ==> heap.slots[o] == Slots(places[o])
  {
    hide Reachable, Slots, ExtractedPlaces, Accounted, Emptied;
    ghost var was := places[..];
    var passes;
    var refs := ExtractPlaces(places);
    safe, released, passes := heap.RunGarbageCollection(outside);
    for o := 0 to places.Length
      invariant forall x :: 0 <= x < places.Length ==>
                  places[x] == if x < o && x in safe then was[x] else ExtractedPlaces(was[x], x).0
      modifies places
    {
      if o in safe {
        RefilledIsWhole(was[o], o);
        places[o] := Refilled(places[o], refs[o]);
      }
    }
    forall o | 0 <= o < places.Length
      ensures heap.slots[o] == Slots(places[o])
    {
      PlacesAreFlat(was[o], o);
    }
  }
}
