/** The garbage collector for reference cycles between game objects (src/custom_object.cpp).

  Objects are numbered; `refcount[o]` is the count in the object and `slots[o]` are the places in it that can
  refer to another object: its entity pointers and the variants in its two variable stores, in the order the
  extraction visits them.  `outside[o]` counts the holders of `o` that are not such slots.
 */
module GarbageCollection {
  import opened Wrappers

  datatype Slot = Null | Plain(value: int) | Object(target: nat)

  /** A reference pulled out of its slot: whose slot it was, what it referred to, and where the slot is.
      The owner is cleared when the reference is put back. */
  datatype Reference = Reference(owner: Option<nat>, target: nat, holder: nat, index: nat)

  // ---------------------------------------------------------------------------------------------
  // Counting and extracting
  // ---------------------------------------------------------------------------------------------

  function SlotTargets(s: seq<Slot>): multiset<nat> {
    if s == [] then multiset{}
    else
      var last := s[|s| - 1];
      SlotTargets(s[..|s| - 1]) + if last.Object? then multiset{last.target} else multiset{}
  }

  function HeapTargets(slots: seq<seq<Slot>>): multiset<nat> {
    if slots == [] then multiset{}
    else HeapTargets(slots[..|slots| - 1]) + SlotTargets(slots[|slots| - 1])
  }

  function Emptied(s: seq<Slot>): (r: seq<Slot>)
    ensures |r| == |s|
  {
    seq(|s|, i requires 0 <= i < |s| => if s[i].Object? then Null else s[i])
  }

  function ReferencesOf(o: nat, s: seq<Slot>): seq<Reference> {
    if s == [] then []
    else
      var last := s[|s| - 1];
      ReferencesOf(o, s[..|s| - 1])
      + if last.Object? then [Reference(Some(o), last.target, o, |s| - 1)] else []
  }

  function AllReferences(slots: seq<seq<Slot>>): seq<Reference> {
    if slots == [] then []
    else AllReferences(slots[..|slots| - 1]) + ReferencesOf(|slots| - 1, slots[|slots| - 1])
  }

  /** The slot of a reference held an object, and its owner is the object with the slot. */
  ghost predicate ComesFrom(r: Reference, slots: seq<seq<Slot>>) {
    && r.holder < |slots| && r.owner == Some(r.holder)
    && r.index < |slots[r.holder]| && slots[r.holder][r.index] == Object(r.target)
  }

  ghost predicate SamePlace(r: Reference, q: Reference) {
    r.holder == q.holder && r.index == q.index
  }

  lemma {:induction false} ReferencesOfExact(o: nat, s: seq<Slot>)
    ensures forall k :: 0 <= k < |ReferencesOf(o, s)| ==>
              var r := ReferencesOf(o, s)[k];
              r.holder == o && r.owner == Some(o) && r.index < |s| && s[r.index] == Object(r.target)
    ensures forall i :: 0 <= i < |s| && s[i].Object? ==> Reference(Some(o), s[i].target, o, i) in ReferencesOf(o, s)
    ensures forall k, l :: 0 <= k < l < |ReferencesOf(o, s)| ==>
              ReferencesOf(o, s)[k].index < ReferencesOf(o, s)[l].index
  {
    if s != [] {
      var init := s[..|s| - 1];
      ReferencesOfExact(o, init);
      forall i | 0 <= i < |s| && s[i].Object?
        ensures Reference(Some(o), s[i].target, o, i) in ReferencesOf(o, s)
      {
        if i < |init| {
          assert init[i] == s[i];
          assert Reference(Some(o), s[i].target, o, i) in ReferencesOf(o, init);
        }
      }
    }
  }

  /** The extraction finds every object slot, each once, and nothing else. */
  lemma {:induction false} AllReferencesExact(slots: seq<seq<Slot>>)
    ensures forall k :: 0 <= k < |AllReferences(slots)| ==> ComesFrom(AllReferences(slots)[k], slots)
    ensures forall o, i :: 0 <= o < |slots| && 0 <= i < |slots[o]| && slots[o][i].Object? ==>
              Reference(Some(o), slots[o][i].target, o, i) in AllReferences(slots)
    ensures forall k, l :: 0 <= k < l < |AllReferences(slots)| ==>
              !SamePlace(AllReferences(slots)[k], AllReferences(slots)[l])
  {
    if slots != [] {
      var n := |slots| - 1;
      var init, last := slots[..n], slots[n];
      AllReferencesExact(init);
      ReferencesOfExact(n, last);
      var before, added := AllReferences(init), ReferencesOf(n, last);
      assert AllReferences(slots) == before + added;
      forall k | 0 <= k < |AllReferences(slots)|
        ensures ComesFrom(AllReferences(slots)[k], slots)
      {
        if k < |before| {
          assert ComesFrom(before[k], init);
        } else {
          assert added[k - |before|] == AllReferences(slots)[k];
        }
      }
      forall o, i | 0 <= o < |slots| && 0 <= i < |slots[o]| && slots[o][i].Object?
        ensures Reference(Some(o), slots[o][i].target, o, i) in AllReferences(slots)
      {
        if o < n {
          assert init[o] == slots[o];
          assert Reference(Some(o), slots[o][i].target, o, i) in before;
        } else {
          assert Reference(Some(o), slots[o][i].target, o, i) in added;
        }
      }
      forall k, l | 0 <= k < l < |AllReferences(slots)|
        ensures !SamePlace(AllReferences(slots)[k], AllReferences(slots)[l])
      {
        if l < |before| {
          assert !SamePlace(before[k], before[l]);
        } else if k < |before| {
          assert ComesFrom(before[k], init);
          assert added[l - |before|].holder == n;
        } else {
          assert added[k - |before|].index < added[l - |before|].index;
        }
      }
    }
  }

  lemma ReferenceComesFrom(slots: seq<seq<Slot>>, k: nat)
    requires k < |AllReferences(slots)|
    ensures ComesFrom(AllReferences(slots)[k], slots)
  {
    AllReferencesExact(slots);
  }

  lemma ReferenceFor(slots: seq<seq<Slot>>, o: nat, i: nat) returns (k: nat)
    requires o < |slots| && i < |slots[o]| && slots[o][i].Object?
    ensures k < |AllReferences(slots)| && AllReferences(slots)[k] == Reference(Some(o), slots[o][i].target, o, i)
  {
    AllReferencesExact(slots);
    k :| 0 <= k < |AllReferences(slots)| && AllReferences(slots)[k] == Reference(Some(o), slots[o][i].target, o, i);
  }

  lemma DifferentPlaces(slots: seq<seq<Slot>>, k: nat, l: nat)
    requires k < |AllReferences(slots)| && l < |AllReferences(slots)| && k != l
    ensures !SamePlace(AllReferences(slots)[k], AllReferences(slots)[l])
  {
    AllReferencesExact(slots);
    if l < k {
      assert !SamePlace(AllReferences(slots)[l], AllReferences(slots)[k]);
    }
  }

  // ---------------------------------------------------------------------------------------------
  // Reachability
  // ---------------------------------------------------------------------------------------------

  ghost predicate PointsTo(slots: seq<seq<Slot>>, a: nat, b: nat) {
    a < |slots| && Object(b) in slots[a]
  }

  /** A chain of references that starts at an object with an outside holder. */
  ghost predicate IsPath(slots: seq<seq<Slot>>, outside: seq<nat>, path: seq<nat>)
    requires |outside| == |slots|
  {
    && path != []
    && path[0] < |slots| && outside[path[0]] > 0
    && forall i :: 0 <= i < |path| - 1 ==> PointsTo(slots, path[i], path[i + 1])
  }

  ghost predicate Reachable(slots: seq<seq<Slot>>, outside: seq<nat>, o: nat)
    requires |outside| == |slots|
  {
    exists path :: IsPath(slots, outside, path) && path[|path| - 1] == o
  }

  lemma RootIsReachable(slots: seq<seq<Slot>>, outside: seq<nat>, o: nat)
    requires |outside| == |slots| && o < |slots| && outside[o] > 0
    ensures Reachable(slots, outside, o)
  {
    assert IsPath(slots, outside, [o]);
  }

  lemma SuccessorIsReachable(slots: seq<seq<Slot>>, outside: seq<nat>, a: nat, b: nat)
    requires |outside| == |slots| && Reachable(slots, outside, a) && PointsTo(slots, a, b)
    ensures Reachable(slots, outside, b)
  {
    var path :| IsPath(slots, outside, path) && path[|path| - 1] == a;
    assert IsPath(slots, outside, path + [b]);
  }

  /** A set that holds every root and is closed under references holds everything reachable. */
  lemma {:induction false} ClosedSetHoldsPath(slots: seq<seq<Slot>>, outside: seq<nat>, closed: set<nat>,
                                              path: seq<nat>)
    requires |outside| == |slots| && IsPath(slots, outside, path)
    requires forall o :: 0 <= o < |slots| && outside[o] > 0 ==> o in closed
    requires forall a, b :: a in closed && PointsTo(slots, a, b) ==> b in closed
    ensures path[|path| - 1] in closed
  {
    if |path| > 1 {
      var init := path[..|path| - 1];
      ClosedSetHoldsPath(slots, outside, closed, init);
      assert PointsTo(slots, path[|path| - 2], path[|path| - 1]);
    }
  }

  // ---------------------------------------------------------------------------------------------
  // The state of the passes
  // ---------------------------------------------------------------------------------------------

  /** The targets of the references put back so far. */
  function Restored(refs: seq<Reference>): multiset<nat> {
    if refs == [] then multiset{}
    else
      var last := refs[|refs| - 1];
      Restored(refs[..|refs| - 1]) + if last.owner.None? then multiset{last.target} else multiset{}
  }

  lemma {:induction false} RestoringAddsTarget(refs: seq<Reference>, k: nat)
    requires k < |refs| && refs[k].owner.Some?
    ensures Restored(refs[k := refs[k].(owner := None)]) == Restored(refs) + multiset{refs[k].target}
  {
    var n := |refs| - 1;
    var after := refs[k := refs[k].(owner := None)];
    if k == n {
      assert after[..n] == refs[..n];
    } else {
      assert after[..n] == refs[..n][k := refs[k].(owner := None)];
      RestoringAddsTarget(refs[..n], k);
    }
  }

  lemma {:induction false} RestoredHas(refs: seq<Reference>, o: nat)
    ensures Restored(refs)[o] > 0 <==> exists k :: 0 <= k < |refs| && refs[k].owner.None? && refs[k].target == o
  {
    if refs != [] {
      var n := |refs| - 1;
      var init := refs[..n];
      RestoredHas(init, o);
      if Restored(init)[o] > 0 {
        var k :| 0 <= k < |init| && init[k].owner.None? && init[k].target == o;
        assert refs[k] == init[k];
      }
      if k :| 0 <= k < |refs| && refs[k].owner.None? && refs[k].target == o {
        if k < n {
          assert init[k] == refs[k];
        }
      }
    }
  }

  lemma {:induction false} NothingRestoredYet(refs: seq<Reference>)
    requires forall k :: 0 <= k < |refs| ==> refs[k].owner.Some?
    ensures Restored(refs) == multiset{}
  {
    if refs != [] {
      NothingRestoredYet(refs[..|refs| - 1]);
    }
  }

  /** The references are the extracted ones, some of them with their owner cleared. */
  ghost predicate Tracks(refs: seq<Reference>, all: seq<Reference>) {
    && |refs| == |all|
    && forall k :: 0 <= k < |all| ==> all[k].owner.Some? && (refs[k] == all[k] || refs[k] == all[k].(owner := None))
  }

  /** Conservation: every object is held by its outside holders, once by the collector, and by what was restored. */
  ghost predicate Conserved(counts: seq<int>, outside: seq<nat>, refs: seq<Reference>) {
    && |counts| == |outside|
    && forall o :: 0 <= o < |counts| ==> counts[o] == outside[o] + 1 + Restored(refs)[o]
  }

  /** A slot is as it was if its reference was restored or it never held one, and null otherwise. */
  ghost predicate SlotsFollow(now: seq<seq<Slot>>, was: seq<seq<Slot>>, refs: seq<Reference>) {
    && |now| == |was|
    && (forall o :: 0 <= o < |was| ==> |now[o]| == |was[o]|)
    && (forall o, i :: 0 <= o < |was| && 0 <= i < |was[o]| && !was[o][i].Object? ==> now[o][i] == was[o][i])
    && forall k :: 0 <= k < |refs| ==>
         && refs[k].holder < |was| && refs[k].index < |was[refs[k].holder]|
         && now[refs[k].holder][refs[k].index] == if refs[k].owner.None? then Object(refs[k].target) else Null
  }

  ghost predicate SoundSafe(safe: set<nat>, slots: seq<seq<Slot>>, outside: seq<nat>)
    requires |outside| == |slots|
  {
    forall o :: o in safe ==> o < |slots| && Reachable(slots, outside, o)
  }

  /** Only references of safe objects were restored. */
  ghost predicate RestoredAreSafe(refs: seq<Reference>, safe: set<nat>) {
    forall k :: 0 <= k < |refs| && refs[k].owner.None? ==> refs[k].holder in safe
  }

  /** All references of safe objects were restored. */
  ghost predicate SafeAreRestored(refs: seq<Reference>, safe: set<nat>) {
    forall k :: 0 <= k < |refs| && refs[k].holder in safe ==> refs[k].owner.None?
  }

  /** An object with more than the collector's own hold is reachable. */
  lemma HeldIsReachable(o: nat, slots: seq<seq<Slot>>, outside: seq<nat>, counts: seq<int>,
                        refs: seq<Reference>, safe: set<nat>)
    requires |outside| == |slots| && o < |slots|
    requires Tracks(refs, AllReferences(slots)) && Conserved(counts, outside, refs)
    requires SoundSafe(safe, slots, outside) && RestoredAreSafe(refs, safe)
    requires counts[o] > 1
    ensures Reachable(slots, outside, o)
  {
    if outside[o] > 0 {
      RootIsReachable(slots, outside, o);
    } else {
      RestoredHas(refs, o);
      var k :| 0 <= k < |refs| && refs[k].owner.None? && refs[k].target == o;
      ReferenceComesFrom(slots, k);
      SuccessorIsReachable(slots, outside, refs[k].holder, o);
    }
  }

  lemma SuccessorOfSafeIsHeld(slots: seq<seq<Slot>>, outside: seq<nat>, counts: seq<int>, refs: seq<Reference>,
                              safe: set<nat>, a: nat, b: nat)
    requires |outside| == |slots| && Tracks(refs, AllReferences(slots)) && Conserved(counts, outside, refs)
    requires SafeAreRestored(refs, safe) && a in safe && PointsTo(slots, a, b) && b < |slots|
    ensures |counts| == |slots| && counts[b] > 1
  {
    hide AllReferences, Restored;
    var i :| 0 <= i < |slots[a]| && slots[a][i] == Object(b);
    var k := ReferenceFor(slots, a, i);
    assert refs[k].holder == a && refs[k].owner.None? && refs[k].target == b;
    RestoredHas(refs, b);
  }

  /** When a pass adds nothing, everything reachable is safe. */
  lemma ReachableIsSafe(slots: seq<seq<Slot>>, outside: seq<nat>, counts: seq<int>, refs: seq<Reference>,
                        safe: set<nat>, o: nat)
    requires |outside| == |slots| && Reachable(slots, outside, o)
    requires Tracks(refs, AllReferences(slots)) && Conserved(counts, outside, refs)
    requires forall a: nat, b: nat :: PointsTo(slots, a, b) ==> b < |slots|
    requires SafeAreRestored(refs, safe)
    requires forall x :: 0 <= x < |counts| && counts[x] > 1 ==> x in safe
    ensures o in safe
  {
    forall a, b | a in safe && PointsTo(slots, a, b)
      ensures b in safe
    {
      SuccessorOfSafeIsHeld(slots, outside, counts, refs, safe, a, b);
    }
    var path :| IsPath(slots, outside, path) && path[|path| - 1] == o;
    ClosedSetHoldsPath(slots, outside, safe, path);
  }

  /** Putting one reference back keeps slots and counts in step. */
  lemma RestoringKeepsSlots(now: seq<seq<Slot>>, was: seq<seq<Slot>>, refs: seq<Reference>, k: nat)
    requires k < |refs| && Tracks(refs, AllReferences(was)) && SlotsFollow(now, was, refs)
    ensures var r := refs[k];
      SlotsFollow(now[r.holder := now[r.holder][r.index := Object(r.target)]], was, refs[k := r.(owner := None)])
  {
    hide AllReferences;
    var r := refs[k];
    var next := now[r.holder := now[r.holder][r.index := Object(r.target)]];
    var after := refs[k := r.(owner := None)];
    ReferenceComesFrom(was, k);
    forall l | 0 <= l < |after|
      ensures next[after[l].holder][after[l].index]
              == if after[l].owner.None? then Object(after[l].target) else Null
    {
      if l != k {
        DifferentPlaces(was, k, l);
      }
    }
  }

  lemma {:induction false} FillingAddsTarget(s: seq<Slot>, i: nat, target: nat)
    requires i < |s| && !s[i].Object?
    ensures SlotTargets(s[i := Object(target)]) == SlotTargets(s) + multiset{target}
  {
    var n := |s| - 1;
    var after := s[i := Object(target)];
    if i == n {
      assert after[..n] == s[..n];
    } else {
      assert after[..n] == s[..n][i := Object(target)];
      FillingAddsTarget(s[..n], i, target);
    }
  }

  lemma {:induction false} RestoringAddsHeapTarget(slots: seq<seq<Slot>>, o: nat, i: nat, target: nat)
    requires o < |slots| && i < |slots[o]| && !slots[o][i].Object?
    ensures HeapTargets(slots[o := slots[o][i := Object(target)]]) == HeapTargets(slots) + multiset{target}
  {
    var n := |slots| - 1;
    var after := slots[o := slots[o][i := Object(target)]];
    if o == n {
      assert after[..n] == slots[..n];
      FillingAddsTarget(slots[n], i, target);
    } else {
      assert after[..n] == slots[..n][o := slots[o][i := Object(target)]];
      RestoringAddsHeapTarget(slots[..n], o, i, target);
    }
  }

  lemma {:induction false} EmptiedHasNoTargets(s: seq<Slot>)
    ensures SlotTargets(Emptied(s)) == multiset{}
  {
    if s != [] {
      EmptiedHasNoTargets(s[..|s| - 1]);
      assert Emptied(s)[..|s| - 1] == Emptied(s[..|s| - 1]);
    }
  }

  lemma {:induction false} AllEmptiedHasNoTargets(now: seq<seq<Slot>>, was: seq<seq<Slot>>)
    requires |now| == |was| && forall o :: 0 <= o < |was| ==> now[o] == Emptied(was[o])
    ensures HeapTargets(now) == multiset{}
  {
    if now != [] {
      AllEmptiedHasNoTargets(now[..|now| - 1], was[..|was| - 1]);
      EmptiedHasNoTargets(was[|was| - 1]);
    }
  }

  lemma ExtractedStateInStep(now: seq<seq<Slot>>, was: seq<seq<Slot>>, counts: seq<int>, outside: seq<nat>)
    requires |now| == |was| == |counts| == |outside|
    requires forall o :: 0 <= o < |was| ==> now[o] == Emptied(was[o]) && counts[o] == outside[o] + 1
    ensures InStep(now, was, counts, outside, AllReferences(was))
    ensures forall k :: 0 <= k < |AllReferences(was)| ==> AllReferences(was)[k].owner.Some?
  {
    hide Emptied, HeapTargets, Restored, SlotsFollow, ComesFrom, AllReferences;
    var all := AllReferences(was);
    AllReferencesExact(was);
    forall k | 0 <= k < |all|
      ensures all[k].owner.Some?
    {
      OwnerIsKnown(all[k], was);
    }
    NothingRestoredYet(all);
    AllEmptiedHasNoTargets(now, was);
    EmptiedSlotsFollow(now, was, all);
  }

  lemma OwnerIsKnown(r: Reference, slots: seq<seq<Slot>>)
    requires ComesFrom(r, slots)
    ensures r.owner.Some?
  {
  }

  lemma EmptiedSlotsFollow(now: seq<seq<Slot>>, was: seq<seq<Slot>>, refs: seq<Reference>)
    requires |now| == |was| && forall o :: 0 <= o < |was| ==> now[o] == Emptied(was[o])
    requires forall k :: 0 <= k < |refs| ==> ComesFrom(refs[k], was)
    ensures SlotsFollow(now, was, refs)
  {
  }

  /** Everything a pass keeps: the references are the extracted ones, the slots show which of them were restored,
      counts are conserved, and what the heap now refers to is exactly what was restored. */
  ghost predicate InStep(now: seq<seq<Slot>>, was: seq<seq<Slot>>, counts: seq<int>, outside: seq<nat>,
                         refs: seq<Reference>) {
    && |outside| == |was|
    && Tracks(refs, AllReferences(was))
    && Conserved(counts, outside, refs)
    && SlotsFollow(now, was, refs)
    && HeapTargets(now) == Restored(refs)
  }

  lemma RestoringKeepsStep(now: seq<seq<Slot>>, was: seq<seq<Slot>>, counts: seq<int>, outside: seq<nat>,
                           refs: seq<Reference>, k: nat)
    requires k < |refs| && refs[k].owner.Some? && InStep(now, was, counts, outside, refs)
    requires refs[k].target < |counts|
    ensures var r := refs[k];
      InStep(now[r.holder := now[r.holder][r.index := Object(r.target)]], was,
             counts[r.target := counts[r.target] + 1], outside, refs[k := r.(owner := None)])
  {
    hide AllReferences, Restored, HeapTargets;
    RestoringKeepsSlots(now, was, refs, k);
    ReferenceComesFrom(was, k);
    assert now[refs[k].holder][refs[k].index] == Null;
    RestoringAddsTarget(refs, k);
    RestoringAddsHeapTarget(now, refs[k].holder, refs[k].index, refs[k].target);
  }

  lemma StepFacts(now: seq<seq<Slot>>, was: seq<seq<Slot>>, counts: seq<int>, outside: seq<nat>, refs: seq<Reference>)
    requires InStep(now, was, counts, outside, refs)
    ensures |outside| == |was| && Tracks(refs, AllReferences(was)) && Conserved(counts, outside, refs)
  {
  }

  lemma ReferenceInRange(now: seq<seq<Slot>>, was: seq<seq<Slot>>, counts: seq<int>, outside: seq<nat>,
                         refs: seq<Reference>, k: nat)
    requires k < |refs| && refs[k].owner.Some? && InStep(now, was, counts, outside, refs)
    requires forall a: nat, b: nat :: PointsTo(was, a, b) ==> b < |was|
    ensures refs[k].owner == Some(refs[k].holder) && refs[k].target < |counts| == |was|
    ensures refs[k].holder < |now| && refs[k].index < |now[refs[k].holder]|
  {
    hide AllReferences;
    ReferenceComesFrom(was, k);
    assert PointsTo(was, refs[k].holder, refs[k].target);
  }

  /** Slots at the end: a safe object has all of them back, any other has none. */
  lemma SlotsAtTheEnd(now: seq<seq<Slot>>, was: seq<seq<Slot>>, refs: seq<Reference>, safe: set<nat>, o: nat)
    requires o < |was| && Tracks(refs, AllReferences(was)) && SlotsFollow(now, was, refs)
    requires RestoredAreSafe(refs, safe) && SafeAreRestored(refs, safe)
    ensures now[o] == if o in safe then was[o] else Emptied(was[o])
  {
    hide AllReferences;
    forall i | 0 <= i < |was[o]|
      ensures now[o][i] == if o in safe || !was[o][i].Object? then was[o][i] else Null
    {
      if was[o][i].Object? {
        var k := ReferenceFor(was, o, i);
        assert refs[k].holder == o && refs[k].index == i;
      }
    }
  }

  lemma {:induction false} BoundedSetSize(s: set<nat>, n: nat)
    requires forall o :: o in s ==> o < n
    ensures |s| <= n
  {
    if n > 0 {
      BoundedSetSize(s - {n - 1}, n - 1);
    }
  }

  lemma GrownSetOfSameSize(s: set<nat>, t: set<nat>)
    requires s <= t
    ensures |s| == |t| <==> s == t
    ensures |s| <= |t|
  {
    assert t == s + (t - s);
  }

  // ---------------------------------------------------------------------------------------------
  // The collector
  // ---------------------------------------------------------------------------------------------

  ghost predicate Accounted(counts: seq<int>, slots: seq<seq<Slot>>, outside: seq<nat>) {
    && |counts| == |slots| == |outside|
    && (forall a: nat, b: nat :: PointsTo(slots, a, b) ==> b < |slots|)
    && forall o :: 0 <= o < |counts| ==> counts[o] == outside[o] + HeapTargets(slots)[o]
  }

  lemma NoSlots(o: nat)
    ensures ReferencesOf(o, []) == [] && SlotTargets([]) == multiset{}
  {
  }

  /** What one more slot adds. */
  lemma NextSlot(o: nat, s: seq<Slot>, i: nat)
    requires i < |s|
    ensures ReferencesOf(o, s[..i + 1])
            == if s[i].Object? then ReferencesOf(o, s[..i]) + [Reference(Some(o), s[i].target, o, i)]
               else ReferencesOf(o, s[..i])
    ensures SlotTargets(s[..i + 1])
            == if s[i].Object? then SlotTargets(s[..i])[s[i].target := SlotTargets(s[..i])[s[i].target] + 1]
               else SlotTargets(s[..i])
  {
    assert s[..i + 1][..i] == s[..i];
  }

  class Heap {
    const refcount: array<int>
    const slots: array<seq<Slot>>

    constructor (counts: seq<int>, initial: seq<seq<Slot>>)
      ensures refcount[..] == counts && slots[..] == initial && fresh(refcount) && fresh(slots)
    {
      refcount := new int[|counts|](i requires 0 <= i < |counts| => counts[i]);
      slots := new seq<Slot>[|initial|](i requires 0 <= i < |initial| => initial[i]);
    }

    /** Pulls the references out of one object's slots, appending them to `refs`. */
    method ExtractObject(o: nat, refs: seq<Reference>) returns (r: seq<Reference>)
      requires o < slots.Length == refcount.Length
      requires forall i :: 0 <= i < |slots[o]| && slots[o][i].Object? ==> slots[o][i].target < refcount.Length
      modifies refcount, slots
      ensures r == refs + ReferencesOf(o, old(slots[o]))
      ensures slots[..] == old(slots[..])[o := Emptied(old(slots[o]))]
      ensures forall x :: 0 <= x < refcount.Length ==> refcount[x] == old(refcount[x]) - SlotTargets(old(slots[o]))[x]
    {
      hide ReferencesOf, SlotTargets;
      NoSlots(o);
      r := refs;
      ghost var was := slots[o];
      var i := 0;
      while i < |slots[o]|
        invariant 0 <= i <= |was| == |slots[o]|
        invariant forall x :: 0 <= x < slots.Length && x != o ==> slots[x] == old(slots[x])
        invariant forall j :: 0 <= j < |was| ==>
                    slots[o][j] == if j < i && was[j].Object? then Null else was[j]
        invariant r == refs + ReferencesOf(o, was[..i])
        invariant forall x :: 0 <= x < refcount.Length ==> refcount[x] == old(refcount[x]) - SlotTargets(was[..i])[x]
      {
        NextSlot(o, was, i);
        if slots[o][i].Object? {
          var target := slots[o][i].target;
          r := r + [Reference(Some(o), target, o, i)];
          slots[o] := slots[o][i := Null];
          refcount[target] := refcount[target] - 1;
        }
        i := i + 1;
      }
      assert was[..i] == was;
      assert slots[o] == Emptied(was);
    }

    method ExtractAll() returns (refs: seq<Reference>)
      requires slots.Length == refcount.Length
      requires forall a: nat, b: nat :: PointsTo(slots[..], a, b) ==> b < slots.Length
      modifies refcount, slots
      ensures refs == AllReferences(old(slots[..]))
      ensures forall o :: 0 <= o < slots.Length ==> slots[o] == Emptied(old(slots[o]))
      ensures forall x :: 0 <= x < refcount.Length ==> refcount[x] == old(refcount[x]) - HeapTargets(old(slots[..]))[x]
    {
      refs := [];
      ghost var was := slots[..];
      for o := 0 to slots.Length
        invariant forall x :: 0 <= x < slots.Length ==> slots[x] == if x < o then Emptied(was[x]) else was[x]
        invariant refs == AllReferences(was[..o])
        invariant forall x :: 0 <= x < refcount.Length ==> refcount[x] == old(refcount[x]) - HeapTargets(was[..o])[x]
      {
        assert was[..o + 1][..o] == was[..o];
        forall i | 0 <= i < |slots[o]| && slots[o][i].Object?
          ensures slots[o][i].target < refcount.Length
        {
          assert PointsTo(was, o, slots[o][i].target);
        }
        refs := ExtractObject(o, refs);
      }
      assert was[..slots.Length] == was;
    }

    method MarkSafe(safe: set<nat>) returns (r: set<nat>)
      ensures r == safe + set o: nat | o < refcount.Length && refcount[o] > 1
    {
      r := safe;
      for o := 0 to refcount.Length
        invariant r == safe + set x: nat | x < o && refcount[x] > 1
      {
        if refcount[o] > 1 {
          r := r + {o};
        }
      }
    }

    /** One pass over the references: those of safe objects are put back and lose their owner. */
    method RestorePass(refs: seq<Reference>, safe: set<nat>, ghost was: seq<seq<Slot>>, ghost outside: seq<nat>)
        returns (r: seq<Reference>)
      requires slots.Length == refcount.Length == |was|
      requires InStep(slots[..], was, refcount[..], outside, refs) && RestoredAreSafe(refs, safe)
      requires forall a: nat, b: nat :: PointsTo(was, a, b) ==> b < |was|
      modifies refcount, slots
      ensures InStep(slots[..], was, refcount[..], outside, r)
      ensures RestoredAreSafe(r, safe) && SafeAreRestored(r, safe)
      ensures forall o :: 0 <= o < refcount.Length ==> refcount[o] >= old(refcount[o])
    {
      hide AllReferences, Restored, HeapTargets, SlotsFollow;
      r := refs;
      for k := 0 to |refs|
        invariant |r| == |refs| && InStep(slots[..], was, refcount[..], outside, r) && RestoredAreSafe(r, safe)
        invariant forall l :: 0 <= l < k && r[l].holder in safe ==> r[l].owner.None?
        invariant forall o :: 0 <= o < refcount.Length ==> refcount[o] >= old(refcount[o])
      {
        if r[k].owner.None? {
          continue;
        }
        ReferenceInRange(slots[..], was, refcount[..], outside, r, k);
        if r[k].owner.value in safe {
          RestoringKeepsStep(slots[..], was, refcount[..], outside, r, k);
          var holder, index, target := r[k].holder, r[k].index, r[k].target;
          ghost var now, counts := slots[..], refcount[..];
          slots[holder] := slots[holder][index := Object(target)];
          refcount[target] := refcount[target] + 1;
          assert slots[..] == now[holder := now[holder][index := Object(target)]];
          assert refcount[..] == counts[target := counts[target] + 1];
          r := r[k := r[k].(owner := None)];
        }
      }
    }

    /** The collector takes a reference to every object, and pulls out the references between them. */
    method Prepare(ghost outside: seq<nat>) returns (refs: seq<Reference>)
      requires Accounted(refcount[..], slots[..], outside)
      modifies refcount, slots
      ensures refs == AllReferences(old(slots[..]))
      ensures InStep(slots[..], old(slots[..]), refcount[..], outside, refs)
      ensures forall k :: 0 <= k < |refs| ==> refs[k].owner.Some?
    {
      hide AllReferences, HeapTargets, InStep;
      ghost var was := slots[..];
      for o := 0 to refcount.Length
        invariant forall x :: 0 <= x < refcount.Length ==> refcount[x] == old(refcount[x]) + if x < o then 1 else 0
        modifies refcount
      {
        refcount[o] := refcount[o] + 1;
      }
      assert slots[..] == was;
      refs := ExtractAll();
      ExtractedStateInStep(slots[..], was, refcount[..], outside);
    }

    /** The collector's references go away; an object without any other is released. */
    method Release() returns (released: set<nat>)
      modifies refcount
      ensures forall o :: 0 <= o < refcount.Length ==> refcount[o] == old(refcount[o]) - 1
      ensures released == set o | 0 <= o < refcount.Length && refcount[o] == 0
    {
      released := {};
      for o := 0 to refcount.Length
        invariant forall x :: 0 <= x < refcount.Length ==> refcount[x] == old(refcount[x]) - if x < o then 1 else 0
        invariant released == set x | 0 <= x < o && refcount[x] == 0
      {
        refcount[o] := refcount[o] - 1;
        if refcount[o] == 0 {
          released := released + {o};
        }
      }
    }

    /** The passes.  Each but the last adds a safe object, so there are at most as many as objects and one more;
        at the end the safe objects are the reachable ones, and those with a hold besides the collector's. */
    method FindSafe(all: seq<Reference>, ghost was: seq<seq<Slot>>, ghost outside: seq<nat>)
        returns (safe: set<nat>, passes: nat, ghost refs: seq<Reference>)
      requires slots.Length == refcount.Length == |was| == |outside|
      requires InStep(slots[..], was, refcount[..], outside, all)
      requires forall k :: 0 <= k < |all| ==> all[k].owner.Some?
      requires forall a: nat, b: nat :: PointsTo(was, a, b) ==> b < |was|
      modifies refcount, slots
      ensures InStep(slots[..], was, refcount[..], outside, refs)
      ensures RestoredAreSafe(refs, safe) && SafeAreRestored(refs, safe)
      ensures forall o: nat :: o in safe <==> o < slots.Length && Reachable(was, outside, o)
      ensures forall o: nat :: o in safe <==> o < slots.Length && refcount[o] > 1
      ensures 1 <= passes <= slots.Length + 1
    {
      hide AllReferences, InStep, Reachable;
      safe := {};
      passes := 1;
      var left := all;
      while true
        invariant InStep(slots[..], was, refcount[..], outside, left)
        invariant SoundSafe(safe, was, outside) && RestoredAreSafe(left, safe) && SafeAreRestored(left, safe)
        invariant forall o :: o in safe ==> refcount[o] > 1
        invariant 1 <= passes <= |safe| + 1
        decreases refcount.Length - |safe|
      {
        var startingSafe := |safe|;
        ghost var before := safe;
        safe := MarkSafe(safe);
        forall o | o in safe && o !in before
          ensures o < |was| && Reachable(was, outside, o)
        {
          StepFacts(slots[..], was, refcount[..], outside, left);
          HeldIsReachable(o, was, outside, refcount[..], left, before);
        }
        GrownSetOfSameSize(before, safe);
        BoundedSetSize(safe, refcount.Length);
        if startingSafe == |safe| {
          break;
        }
        passes := passes + 1;
        left := RestorePass(left, safe, was, outside);
      }
      refs := left;
      forall o: nat | o < slots.Length && Reachable(was, outside, o)
        ensures o in safe
      {
        StepFacts(slots[..], was, refcount[..], outside, left);
        ReachableIsSafe(was, outside, refcount[..], refs, safe, o);
      }
    }

    /** `outside` says how often each object is held other than by a slot.  When the loop stops, `safe` is exactly
        what is reachable from objects with outside holders; its objects have all their references back, and every
        other object has none left and is released with the collector's own hold on it. */
    method RunGarbageCollection(ghost outside: seq<nat>) returns (safe: set<nat>, released: set<nat>, passes: nat)
      requires Accounted(refcount[..], slots[..], outside)
      modifies refcount, slots
      ensures forall o: nat :: o in safe <==> o < slots.Length && Reachable(old(slots[..]), outside, o)
      ensures forall o :: 0 <= o < slots.Length ==>
                slots[o] == if o in safe then old(slots[o]) else Emptied(old(slots[o]))
      ensures forall o :: 0 <= o < slots.Length ==> refcount[o] == outside[o] + HeapTargets(slots[..])[o]
      ensures released == set o | 0 <= o < slots.Length && o !in safe
      ensures forall o :: o in released ==> refcount[o] == 0
      ensures 1 <= passes <= slots.Length + 1
    {
      hide AllReferences, HeapTargets, Restored, SlotsFollow, Reachable;
      ghost var was := slots[..];
      ghost var refs;
      var all := Prepare(outside);
      safe, passes, refs := FindSafe(all, was, outside);
      forall o: nat | o < slots.Length
        ensures slots[o] == if o in safe then was[o] else Emptied(was[o])
      {
        SlotsAtTheEnd(slots[..], was, refs, safe, o);
      }
      released := Release();
    }
  }
}
