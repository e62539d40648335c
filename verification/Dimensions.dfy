/** The solid dimensions of an object: the interned names (src/collision_utils.cpp), and the text in which an object
  saves the dimensions it is solid in (src/custom_object.cpp).  A mask of bits is modelled as the set of its ids. */
module Dimensions {
  import opened Text
  import opened Wrappers

  // ---------------------------------------------------------------------------------------------
  // Interned names
  // ---------------------------------------------------------------------------------------------

  predicate Distinct(keys: seq<string>) {
    forall i, j :: 0 <= i < j < |keys| ==> keys[i] != keys[j]
  }

  /** The names after one has been looked up: a new one is added at the end. */
  function Interned(keys: seq<string>, key: string): (r: seq<string>)
    ensures keys <= r && key in r
  {
    if key in keys then keys else keys + [key]
  }

  class Registry {
    var ids: map<string, int>
    var keys: seq<string>

    /** The map and the vector are inverse to each other. */
    ghost predicate Valid()
      reads this
    {
      && |ids| == |keys|
      && (forall i :: 0 <= i < |keys| ==> keys[i] in ids && ids[keys[i]] == i)
      && (forall k :: k in ids ==> 0 <= ids[k] < |keys| && keys[ids[k]] == k)
    }

    constructor ()
      ensures Valid() && keys == []
    {
      ids, keys := map[], [];
    }

    method GetNumSolidDimensions() returns (n: int)
      requires Valid()
      ensures n == |keys|
    {
      return |ids|;
    }

    /** An id out of range fails the assertion of the source. */
    method GetSolidDimensionKey(id: nat) returns (key: Result<string>)
      requires Valid()
      ensures key.Ok? <==> id < |keys|
      ensures key.Ok? ==> key.value in ids && ids[key.value] == id && key.value == keys[id]
    {
      return if id < |keys| then Ok(keys[id]) else Err;
    }

    /** The id of a name never changes, and no two names share one. */
    method GetSolidDimensionId(key: string) returns (id: nat)
      requires Valid()
      modifies this
      ensures Valid() && keys == Interned(old(keys), key)
      ensures id < |keys| && keys[id] == key
      ensures forall k :: k in old(ids) ==> k in ids && ids[k] == old(ids)[k]
    {
      if key in ids {
        return ids[key];
      }
      assert key !in keys;
      ids := ids[key := |keys|];
      keys := keys + [key];
      return |ids| - 1;
    }
  }

  lemma KeysAreDistinct(r: Registry)
    requires r.Valid()
    ensures Distinct(r.keys)
  {
    forall i, j | 0 <= i < j < |r.keys|
      ensures r.keys[i] != r.keys[j]
    {
      assert r.ids[r.keys[i]] != r.ids[r.keys[j]];
    }
  }

  // ---------------------------------------------------------------------------------------------
  // Masks as text
  // ---------------------------------------------------------------------------------------------

  /** The dimensions an object is solid in, and those in which it is at least weakly so. */
  datatype Masks = Masks(strong: set<nat>, weak: set<nat>)

  const LEVEL_ONLY := "level_only"

  const BITS: nat := 32

  /** A weak name is written with a tilde before it; a blank word and `level_only` name no dimension. */
  predicate IsStrong(w: string) {
    w != [] && w != LEVEL_ONLY && w[0] != '~'
  }

  predicate IsWeak(w: string) {
    w != [] && w != LEVEL_ONLY && w[0] == '~'
  }

  ghost function StrongNames(words: seq<string>): set<string> {
    set w | w in words && IsStrong(w)
  }

  ghost function WeakNames(words: seq<string>): set<string> {
    set w | w in words && IsWeak(w) :: w[1..]
  }

  /** The ids that some names have. */
  ghost function IdsOf(keys: seq<string>, names: set<string>): set<nat> {
    set i: nat | i < |keys| && keys[i] in names
  }

  /** The names that some ids have. */
  ghost function NamesOf(keys: seq<string>, ids: set<nat>): set<string> {
    set i: nat | i in ids && i < |keys| :: keys[i]
  }

  /** The names that are known after the words have been read. */
  function KeysAfter(keys: seq<string>, words: seq<string>): seq<string> {
    if words == [] then keys
    else
      var before, last := KeysAfter(keys, words[..|words| - 1]), words[|words| - 1];
      if IsStrong(last) then Interned(before, last)
      else if IsWeak(last) then Interned(before, last[1..])
      else before
  }

  /** An object is weakly solid wherever it is solid. */
  function MasksOf(dim: set<nat>, weak: set<nat>): Masks {
    Masks(dim, dim + weak)
  }

  ghost function Loaded(keys: seq<string>, node: Option<string>, ofType: Masks): Masks {
    match node
    case None => MasksOf(ofType.strong, ofType.weak)
    case Some(text) =>
      var words := Split(text);
      var read := ReadMasks(keys, words);
      MasksOf(read.strong, read.weak)
  }

  /** Masks of 32 bits, weak wherever they are strong. */
  ghost predicate AreMasks(m: Masks) {
    m.strong <= m.weak && forall i :: i in m.weak ==> i < BITS
  }

  /** Every bit is the id of a name. */
  predicate Registered(keys: seq<string>, m: Masks) {
    (forall i :: i in m.strong ==> i < |keys|) && (forall i :: i in m.weak ==> i < |keys|)
  }

  ghost predicate Writable(keys: seq<string>, m: Masks) {
    AreMasks(m) && Registered(keys, m)
  }

  function Words(keys: seq<string>, m: Masks, n: nat): seq<string> {
    if n == 0 then []
    else
      Words(keys, m, n - 1)
      + (if n - 1 in m.strong && n - 1 < |keys| then [keys[n - 1]] else [])
      + (if n - 1 in m.weak && n - 1 < |keys| then ["~" + keys[n - 1]] else [])
  }

  function TextOf(keys: seq<string>, m: Masks): string {
    var text := Joined(Words(keys, m, BITS));
    if text == [] then LEVEL_ONLY else text
  }

  /** Nothing is written for the masks that the type gives; a bit without a name fails the assertion. */
  function Saved(keys: seq<string>, m: Masks, ofType: Masks): Result<Option<string>> {
    if m == ofType then Ok(None) else if Registered(keys, m) then Ok(Some(TextOf(keys, m))) else Err
  }

  /** Saving works and loading gives the same masks. */
  ghost predicate ComesBack(keys: seq<string>, m: Masks, ofType: Masks) {
    var node := Saved(keys, m, ofType);
    node.Ok? && Loaded(keys, node.value, ofType) == m
  }

  // ---------------------------------------------------------------------------------------------
  // What survives
  // ---------------------------------------------------------------------------------------------

  /** A name that can be read back from a strong word. */
  predicate StrongSurvives(name: string) {
    IsStrong(name) && IsStripped(name) && NoComma(name)
  }

  /** A name that can be read back from a word with a tilde. */
  predicate WeakSurvives(name: string) {
    NoComma(name) && (name == [] || !IsSpace(name[|name| - 1]))
  }

  ghost predicate NamesSurvive(keys: seq<string>, m: Masks) {
    && (forall i :: i in m.strong && i < |keys| ==> StrongSurvives(keys[i]))
    && (forall i :: i in m.weak && i < |keys| ==> WeakSurvives(keys[i]))
  }

  ghost predicate IsWordOf(keys: seq<string>, m: Masks, n: nat, w: string) {
    exists i: nat :: i < n && IsWordAt(keys, m, i, w)
  }

  ghost predicate IsWordAt(keys: seq<string>, m: Masks, i: nat, w: string) {
    i < |keys| && ((i in m.strong && w == keys[i]) || (i in m.weak && w == "~" + keys[i]))
  }

  lemma {:induction false} WordsExact(keys: seq<string>, m: Masks, n: nat, w: string)
    ensures w in Words(keys, m, n) <==> IsWordOf(keys, m, n, w)
  {
    if n > 0 {
      WordsExact(keys, m, n - 1, w);
      LastWord(keys, m, n - 1, w);
      assert IsWordOf(keys, m, n, w) <==> IsWordOf(keys, m, n - 1, w) || IsWordAt(keys, m, n - 1, w);
    }
  }

  lemma LastWord(keys: seq<string>, m: Masks, i: nat, w: string)
    ensures w in Words(keys, m, i + 1) <==> w in Words(keys, m, i) || IsWordAt(keys, m, i, w)
  {
  }

  lemma WordSurvives(keys: seq<string>, m: Masks, i: nat, w: string)
    requires NamesSurvive(keys, m) && IsWordAt(keys, m, i, w)
    ensures w != [] && IsStripped(w) && NoComma(w)
    ensures IsStrong(w) <==> i in m.strong && w == keys[i]
    ensures IsWeak(w) <==> i in m.weak && w == "~" + keys[i]
  {
    if i in m.weak && w == "~" + keys[i] {
      assert w[0] == '~' && w[1..] == keys[i];
      assert LEVEL_ONLY[0] == 'l';
      assert keys[i] != [] ==> w[|w| - 1] == keys[i][|keys[i]| - 1];
    }
  }

  /** The words of the names that survive come back from the text. */
  lemma WordsComeBack(keys: seq<string>, m: Masks)
    requires NamesSurvive(keys, m)
    ensures Split(TextOf(keys, m)) == var words := Words(keys, m, BITS); if words == [] then [LEVEL_ONLY] else words
  {
    hide Words, Split, IsStripped, NamesSurvive, IsWordAt;
    var words := Words(keys, m, BITS);
    forall w | w in words
      ensures w != [] && IsStripped(w) && NoComma(w)
    {
      WordsExact(keys, m, BITS, w);
      var i: nat :| i < BITS && IsWordAt(keys, m, i, w);
      WordSurvives(keys, m, i, w);
    }
    if words == [] {
      LevelOnlyIsClean();
      SplitOfJoined([LEVEL_ONLY]);
      assert [LEVEL_ONLY][..0] == [];
    } else {
      SplitOfJoined(words);
      PiecesOfJoined(words);
    }
  }

  lemma LevelOnlyIsClean()
    ensures LEVEL_ONLY != [] && IsStripped(LEVEL_ONLY) && NoComma(LEVEL_ONLY)
  {
  }

  lemma NamesOfWords(keys: seq<string>, m: Masks)
    requires NamesSurvive(keys, m) && Writable(keys, m)
    ensures StrongNames(Words(keys, m, BITS)) == NamesOf(keys, m.strong)
    ensures WeakNames(Words(keys, m, BITS)) == NamesOf(keys, m.weak)
  {
    hide Words, NamesSurvive, IsWeak, IsStrong, IsStripped;
    var words := Words(keys, m, BITS);
    forall w | w in words
      ensures IsStrong(w) ==> w in NamesOf(keys, m.strong)
      ensures IsWeak(w) ==> w != [] && w[1..] in NamesOf(keys, m.weak)
    {
      WordsExact(keys, m, BITS, w);
      var i: nat :| i < BITS && IsWordAt(keys, m, i, w);
      WordSurvives(keys, m, i, w);
      if IsWeak(w) {
        assert w[1..] == keys[i];
      }
    }
    forall i: nat | i in m.strong
      ensures keys[i] in StrongNames(words)
    {
      assert IsWordAt(keys, m, i, keys[i]);
      WordsExact(keys, m, BITS, keys[i]);
      WordSurvives(keys, m, i, keys[i]);
    }
    forall i: nat | i in m.weak
      ensures keys[i] in WeakNames(words)
    {
      var w := "~" + keys[i];
      assert IsWordAt(keys, m, i, w) && w[1..] == keys[i];
      WordsExact(keys, m, BITS, w);
      WordSurvives(keys, m, i, w);
    }
  }

  /** Whatever the text, only names that survive are read from it. */
  lemma OnlySurvivorsAreRead(text: string, name: string)
    ensures name in StrongNames(Split(text)) ==> StrongSurvives(name) && WeakSurvives(name)
    ensures name in WeakNames(Split(text)) ==> WeakSurvives(name)
  {
    hide Split;
    SplitIsClean(text);
    if name in WeakNames(Split(text)) {
      var w :| w in Split(text) && IsWeak(w) && w[1..] == name;
      assert ',' !in w;
      assert name != [] ==> name[|name| - 1] == w[|w| - 1];
    }
  }

  /** The names in the text are those of the masks if and only if all of them survive. */
  lemma TextHoldsNames(keys: seq<string>, m: Masks)
    requires Writable(keys, m)
    ensures var words := Split(TextOf(keys, m));
      StrongNames(words) == NamesOf(keys, m.strong)
      && StrongNames(words) + WeakNames(words) == NamesOf(keys, m.weak)
      <==> NamesSurvive(keys, m)
  {
    hide Split, TextOf, Words, StrongSurvives, WeakSurvives, StrongNames, WeakNames;
    var words := Split(TextOf(keys, m));
    if NamesSurvive(keys, m) {
      WordsComeBack(keys, m);
      NamesOfWords(keys, m);
      LevelOnlyHasNoNames();
      NoWordsHaveNoNames();
    } else {
      forall name
        ensures name in StrongNames(words) ==> StrongSurvives(name)
        ensures name in StrongNames(words) + WeakNames(words) ==> WeakSurvives(name)
      {
        OnlySurvivorsAreRead(TextOf(keys, m), name);
      }
    }
  }

  lemma LevelOnlyHasNoNames()
    ensures StrongNames([LEVEL_ONLY]) == {} && WeakNames([LEVEL_ONLY]) == {}
  {
  }

  lemma NoWordsHaveNoNames()
    ensures StrongNames([]) == {} && WeakNames([]) == {}
  {
  }

  lemma {:induction false} ReadNamesAreKnown(keys: seq<string>, words: seq<string>)
    requires Distinct(keys)
    ensures keys <= KeysAfter(keys, words) && Distinct(KeysAfter(keys, words))
    ensures forall name :: name in StrongNames(words) || name in WeakNames(words) ==> name in KeysAfter(keys, words)
    ensures forall name :: name in KeysAfter(keys, words) ==>
                             name in keys || name in StrongNames(words) || name in WeakNames(words)
  {
    if words != [] {
      ReadNamesAreKnown(keys, words[..|words| - 1]);
      NamesStep(words[..|words| - 1], words[|words| - 1]);
      assert words == words[..|words| - 1] + [words[|words| - 1]];
    }
  }

  lemma NamesStep(words: seq<string>, w: string)
    ensures StrongNames(words + [w]) == if IsStrong(w) then StrongNames(words) + {w} else StrongNames(words)
    ensures WeakNames(words + [w]) == if IsWeak(w) then WeakNames(words) + {w[1..]} else WeakNames(words)
  {
    assert forall v :: v in words + [w] <==> v in words || v == w;
  }

  lemma NamesOfIds(keys: seq<string>, names: set<string>)
    requires forall name :: name in names ==> name in keys
    ensures NamesOf(keys, IdsOf(keys, names)) == names
  {
    forall name | name in names
      ensures name in NamesOf(keys, IdsOf(keys, names))
    {
      var i: nat :| i < |keys| && keys[i] == name;
      assert i in IdsOf(keys, names);
    }
  }

  lemma IdsOfNames(keys: seq<string>, ids: set<nat>)
    requires Distinct(keys) && forall i :: i in ids ==> i < |keys|
    ensures IdsOf(keys, NamesOf(keys, ids)) == ids
  {
    forall i: nat | i in ids
      ensures i in IdsOf(keys, NamesOf(keys, ids))
    {
      assert keys[i] in NamesOf(keys, ids);
    }
  }

  lemma NamesOfSum(keys: seq<string>, a: set<nat>, b: set<nat>)
    ensures NamesOf(keys, a + b) == NamesOf(keys, a) + NamesOf(keys, b)
  {
  }

  /** A later session may know other names, in another order: the masks that it reads have the same names as those
      that were written, if and only if every name survives. */
  lemma AnotherSessionReadsTheSameNames(keys: seq<string>, m: Masks, keys': seq<string>, ofType: Masks)
    requires Distinct(keys') && Writable(keys, m)
    ensures var r := Loaded(keys', Some(TextOf(keys, m)), ofType);
      var after := KeysAfter(keys', Split(TextOf(keys, m)));
      NamesOf(after, r.strong) == NamesOf(keys, m.strong) && NamesOf(after, r.weak) == NamesOf(keys, m.weak)
      <==> NamesSurvive(keys, m)
  {
    hide Split, TextOf, NamesSurvive, StrongNames, WeakNames, IdsOf, NamesOf, KeysAfter, Distinct;
    var words := Split(TextOf(keys, m));
    var after := KeysAfter(keys', words);
    ReadNamesAreKnown(keys', words);
    NamesOfIds(after, StrongNames(words));
    NamesOfIds(after, WeakNames(words));
    NamesOfSum(after, IdsOf(after, StrongNames(words)), IdsOf(after, WeakNames(words)));
    TextHoldsNames(keys, m);
  }

  lemma IdsOfSum(keys: seq<string>, a: set<string>, b: set<string>)
    ensures IdsOf(keys, a + b) == IdsOf(keys, a) + IdsOf(keys, b)
  {
  }

  /** Names known later do not change the names of ids given out before. */
  lemma LaterNamesMakeNoDifference(keys: seq<string>, after: seq<string>, ids: set<nat>)
    requires keys <= after && forall i :: i in ids ==> i < |keys|
    ensures NamesOf(after, ids) == NamesOf(keys, ids)
  {
  }

  /** Within a session the same masks come back, if and only if they are the type's own, or every bit has a name and
      every name survives. */
  lemma MasksComeBack(keys: seq<string>, m: Masks, ofType: Masks)
    requires Distinct(keys) && AreMasks(m)
    ensures ComesBack(keys, m, ofType) <==> m == ofType || (Registered(keys, m) && NamesSurvive(keys, m))
  {
    hide Split, TextOf, NamesSurvive, NamesOf, IdsOf, KeysAfter, Distinct, StrongNames, WeakNames;
    if m != ofType && Registered(keys, m) {
      var words := Split(TextOf(keys, m));
      var after := KeysAfter(keys, words);
      ReadNamesAreKnown(keys, words);
      LaterNamesMakeNoDifference(keys, after, m.strong);
      LaterNamesMakeNoDifference(keys, after, m.weak);
      AnotherSessionReadsTheSameNames(keys, m, keys, ofType);
      TextHoldsNames(keys, m);
      IdsOfSum(after, StrongNames(words), WeakNames(words));
      IdsOfNames(after, m.strong);
      IdsOfNames(after, m.weak);
    }
  }

  /** The text, on an example: in the order of the ids, each strong name before the same name with a tilde. */
  lemma TextExample()
    ensures TextOf(["a", "b"], Masks({0}, {0, 1})) == "a,~a,~b"
    ensures TextOf(["a", "b"], Masks({}, {})) == "level_only"
  {
    hide Words, Joined;
    var keys, m := ["a", "b"], Masks({0}, {0, 1});
    WordsStart(keys, m);
    WordsStep(keys, m, 0);
    assert "~" + "a" == "~a" && "~" + "b" == "~b" && [] + ["a"] == ["a"] && ["a"] + ["~a"] == ["a", "~a"];
    assert Words(keys, m, 1) == ["a", "~a"];
    WordsStep(keys, m, 1);
    assert Words(keys, m, 2) == ["a", "~a"] + ["~b"];
    NoMoreWords(keys, m, 2, BITS);
    JoinedStart();
    JoinedStep([], "a");
    JoinedStep(["a"], "~a");
    JoinedStep(["a", "~a"], "~b");
    assert "a" + "," + "~a" == "a,~a" && "a,~a" + "," + "~b" == "a,~a,~b";
    WordsStart(keys, Masks({}, {}));
    NoMoreWords(keys, Masks({}, {}), 0, BITS);
  }

  lemma WordsStart(keys: seq<string>, m: Masks)
    ensures Words(keys, m, 0) == []
  {
  }

  lemma {:induction false} NoMoreWords(keys: seq<string>, m: Masks, n: nat, end: nat)
    requires n <= end && forall i: nat :: i in m.strong || i in m.weak ==> i < n
    ensures Words(keys, m, end) == Words(keys, m, n)
    decreases end - n
  {
    if n < end {
      NoMoreWords(keys, m, n, end - 1);
    }
  }

  /** A dimension that is called `level_only` does not come back. */
  lemma LevelOnlyIsLost()
    ensures var keys, m := [LEVEL_ONLY], Masks({0}, {0});
      Distinct(keys) && Writable(keys, m) && !ComesBack(keys, m, Masks({}, {}))
  {
    hide ComesBack;
    var keys, m := [LEVEL_ONLY], Masks({0}, {0});
    assert !StrongSurvives(keys[0]);
    assert !NamesSurvive(keys, m);
    MasksComeBack(keys, m, Masks({}, {}));
  }

  ghost function IdsBelow(n: nat): (r: set<nat>)
    ensures forall i: nat :: i in r <==> i < n
  {
    if n == 0 then {} else IdsBelow(n - 1) + {n - 1}
  }

  /** Masks that name the dimensions an object is not in: they can be written, other than as the type's own, exactly if
      all 32 dimensions have names. */
  lemma ComplementIsWrittenExactly(keys: seq<string>, solid: set<nat>, weak: set<nat>, ofType: Masks)
    requires forall i :: i in solid || i in weak ==> i < |keys|
    ensures var all := IdsBelow(32);
      var m := MasksOf(all - solid, all - weak);
      && AreMasks(m)
      && (Saved(keys, m, ofType).Ok? <==> m == ofType || |keys| >= 32)
  {
    if |keys| < BITS {
      assert BITS - 1 in IdsBelow(BITS) - solid;
    }
  }

  // ---------------------------------------------------------------------------------------------
  // Writing and reading
  // ---------------------------------------------------------------------------------------------

  lemma IdsAfterInterning(keys: seq<string>, key: string, names: set<string>, id: nat)
    requires Distinct(keys) && (forall name :: name in names ==> name in keys)
    requires id < |Interned(keys, key)| && Interned(keys, key)[id] == key
    ensures IdsOf(Interned(keys, key), names + {key}) == IdsOf(keys, names) + {id}
    ensures IdsOf(Interned(keys, key), names) == IdsOf(keys, names)
  {
    var after := Interned(keys, key);
    assert Distinct(after);
    forall i: nat | i < |after|
      ensures i in IdsOf(after, names) <==> i in IdsOf(keys, names)
      ensures i in IdsOf(after, names + {key}) <==> i in IdsOf(keys, names) + {id}
    {
    }
  }

  /** The masks of the words read so far. */
  ghost function ReadMasks(keys: seq<string>, words: seq<string>): Masks {
    var after := KeysAfter(keys, words);
    Masks(IdsOf(after, StrongNames(words)), IdsOf(after, WeakNames(words)))
  }

  /** What one more word adds to the names and to the masks: `id` is the id that its name has. */
  lemma ReadStep(keys: seq<string>, words: seq<string>, w: string, id: nat)
    requires Distinct(keys)
    requires var key := if IsWeak(w) then w[1..] else w;
      var after := Interned(KeysAfter(keys, words), key);
      IsStrong(w) || IsWeak(w) ==> id < |after| && after[id] == key
    ensures var before, m := KeysAfter(keys, words), ReadMasks(keys, words);
      && (IsStrong(w) ==> KeysAfter(keys, words + [w]) == Interned(before, w)
                          && ReadMasks(keys, words + [w]) == Masks(m.strong + {id}, m.weak))
      && (IsWeak(w) ==> KeysAfter(keys, words + [w]) == Interned(before, w[1..])
                        && ReadMasks(keys, words + [w]) == Masks(m.strong, m.weak + {id}))
      && (!IsStrong(w) && !IsWeak(w) ==> KeysAfter(keys, words + [w]) == before && ReadMasks(keys, words + [w]) == m)
  {
    hide IdsOf, StrongNames, WeakNames, Distinct, IsStrong, IsWeak, Interned;
    assert (words + [w])[..|words|] == words;
    ReadNamesAreKnown(keys, words);
    NamesStep(words, w);
    StrongIsNotWeak(w);
    if IsStrong(w) || IsWeak(w) {
      var before, key := KeysAfter(keys, words), if IsWeak(w) then w[1..] else w;
      IdsAfterInterning(before, key, StrongNames(words), id);
      IdsAfterInterning(before, key, WeakNames(words), id);
    }
  }

  lemma StrongIsNotWeak(w: string)
    ensures !(IsStrong(w) && IsWeak(w))
    ensures IsWeak(w) ==> w != []
  {
  }

  class SolidObject {
    var solid: set<nat>
    var weakSolid: set<nat>

    constructor ()
      ensures solid == {} && weakSolid == {}
    {
      solid, weakSolid := {}, {};
    }

    ghost function View(): Masks
      reads this
    {
      Masks(solid, weakSolid)
    }

    method SetSolidDimensions(dim: set<nat>, weak: set<nat>)
      modifies this
      ensures View() == MasksOf(dim, weak)
    {
      solid, weakSolid := dim, dim + weak;
    }

    method Write(registry: Registry, ofType: Masks) returns (node: Result<Option<string>>)
      requires registry.Valid() && forall i :: i in solid || i in weakSolid ==> i < BITS
      ensures node == Saved(registry.keys, View(), ofType)
    {
      if solid == ofType.strong && weakSolid == ofType.weak {
        return Ok(None);
      }
      var dim := "";
      JoinedStart();
      for n := 0 to BITS
        invariant dim == Joined(Words(registry.keys, View(), n))
        invariant forall i :: 0 <= i < n && (i in solid || i in weakSolid) ==> i < |registry.keys|
      {
        hide Joined, Words;
        var longer := WriteBit(registry, n, dim);
        if longer.Err? {
          return Err;
        }
        dim := longer.value;
      }
      if dim == "" {
        dim := LEVEL_ONLY;
      }
      return Ok(Some(dim));
    }

    /** The names of one bit, as strong and as weak. */
    method WriteBit(registry: Registry, n: nat, text: string) returns (longer: Result<string>)
      requires registry.Valid() && text == Joined(Words(registry.keys, View(), n))
      ensures longer == if (n in solid || n in weakSolid) && n >= |registry.keys| then Err
                        else Ok(Joined(Words(registry.keys, View(), n + 1)))
    {
      hide Joined, Words;
      var dim := text;
      ghost var words := Words(registry.keys, View(), n);
      if n in solid {
        var key := registry.GetSolidDimensionKey(n);
        if key.Err? {
          return Err;
        }
        dim := AppendWord(dim, key.value, words);
        words := words + [key.value];
      }
      if n in weakSolid {
        var key := registry.GetSolidDimensionKey(n);
        if key.Err? {
          return Err;
        }
        dim := AppendWord(dim, "~" + key.value, words);
      }
      WordsStep(registry.keys, View(), n);
      return Ok(dim);
    }

    method AppendWord(dim: string, word: string, ghost words: seq<string>) returns (longer: string)
      requires dim == Joined(words)
      ensures longer == Joined(words + [word])
    {
      JoinedStep(words, word);
      longer := dim;
      if longer != "" {
        longer := longer + ",";
      }
      longer := longer + word;
    }

    /** The masks are those of the text, or of the type if there is none; new names are added to the registry. */
    method Read(registry: Registry, node: Option<string>, ofType: Masks)
      requires registry.Valid()
      modifies this, registry
      ensures registry.Valid()
      ensures View() == Loaded(old(registry.keys), node, ofType)
      ensures registry.keys == if node.Some? then KeysAfter(old(registry.keys), Split(node.value))
                               else old(registry.keys)
    {
      var dim, weak := ofType.strong, ofType.weak;
      if node.Some? {
        var words := SplitText(node.value);
        dim, weak := ReadWords(registry, words);
      }
      SetSolidDimensions(dim, weak);
    }

    method ReadWords(registry: Registry, words: seq<string>) returns (dim: set<nat>, weak: set<nat>)
      requires registry.Valid()
      modifies registry
      ensures registry.Valid() && registry.keys == KeysAfter(old(registry.keys), words)
      ensures Masks(dim, weak) == ReadMasks(old(registry.keys), words)
    {
      hide ReadMasks, Distinct, KeysAfter, Interned;
      dim, weak := {}, {};
      NothingRead(registry.keys);
      KeysAreDistinct(registry);
      for n := 0 to |words|
        invariant registry.Valid() && registry.keys == KeysAfter(old(registry.keys), words[..n])
        invariant Masks(dim, weak) == ReadMasks(old(registry.keys), words[..n])
      {
        var str := words[n];
        assert words[..n + 1] == words[..n] + [str];
        var id: nat := 0;
        if str != "" && str != LEVEL_ONLY {
          if str[0] == '~' {
            id := registry.GetSolidDimensionId(str[1..]);
            weak := weak + {id};
          } else {
            id := registry.GetSolidDimensionId(str);
            dim := dim + {id};
          }
        }
        ReadStep(old(registry.keys), words[..n], str, id);
      }
      assert words[..|words|] == words;
    }
  }

  lemma NothingRead(keys: seq<string>)
    ensures KeysAfter(keys, []) == keys && ReadMasks(keys, []) == Masks({}, {})
  {
  }

  lemma WordsStep(keys: seq<string>, m: Masks, n: nat)
    requires n in m.strong || n in m.weak ==> n < |keys|
    ensures var words := Words(keys, m, n);
      var strong := if n in m.strong then words + [keys[n]] else words;
      Words(keys, m, n + 1) == if n in m.weak then strong + ["~" + keys[n]] else strong
  {
  }

  lemma JoinedStart()
    ensures Joined([]) == ""
  {
  }

  lemma JoinedStep(words: seq<string>, w: string)
    ensures Joined(words + [w]) == if Joined(words) == "" then w else Joined(words) + "," + w
  {
    assert (words + [w])[..|words|] == words;
  }
}
