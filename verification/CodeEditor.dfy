/** The two stack scans of the code editor (src/code_editor_widget.cpp): the bracket groups of the formulas in the
  text, and the innermost object around a position.  Tokens are given in the order the tokenizers deliver them. */
module CodeEditor {
  import opened Brackets
  import opened Wrappers

  // ---------------------------------------------------------------------------------------------
  // Bracket groups
  // ---------------------------------------------------------------------------------------------

  /** The row and column where a token begins. */
  type Position = (int, int)

  /** A token and where it is in the text. */
  datatype Token<P> = Token(kind: Kind, place: P)

  type FormulaToken = Token<Position>

  predicate Before(p: Position, q: Position) {
    p.0 < q.0 || (p.0 == q.0 && p.1 < q.1)
  }

  function Kinds<P>(tokens: seq<Token<P>>): (s: seq<Kind>)
    ensures |s| == |tokens| && forall i :: 0 <= i < |s| ==> s[i] == tokens[i].kind
  {
    seq(|tokens|, i requires 0 <= i < |tokens| => tokens[i].kind)
  }

  /** Each token has a character, so that the next one begins later. */
  ghost predicate InOrder(tokens: seq<FormulaToken>) {
    forall i, j :: 0 <= i < j < |tokens| ==> Before(tokens[i].place, tokens[j].place)
  }

  /** The positions of some of the tokens. */
  function At(tokens: seq<FormulaToken>, indices: seq<nat>): (r: seq<Position>)
    requires forall k :: 0 <= k < |indices| ==> indices[k] < |tokens|
    ensures |r| == |indices| && forall k :: 0 <= k < |r| ==> r[k] == tokens[indices[k]].place
  {
    seq(|indices|, k requires 0 <= k < |indices| => tokens[indices[k]].place)
  }

  lemma {:induction false} MembersInRange(s: seq<Kind>, i: nat, n: nat)
    requires i < |s| && n <= |s|
    ensures forall k :: 0 <= k < |Members(s, i, n)| ==> i <= Members(s, i, n)[k] < n
    decreases n
  {
    if n > i + 1 {
      MembersInRange(s, i, n - 1);
    }
  }

  function GroupAt(tokens: seq<FormulaToken>, i: nat, j: nat): seq<Position> {
    if i < j < |tokens| then
      MembersInRange(Kinds(tokens), i, j);
      At(tokens, Group(Kinds(tokens), i, j))
    else []
  }

  function MembersAt(tokens: seq<FormulaToken>, i: nat, n: nat): seq<Position> {
    if i < |tokens| && n <= |tokens| then
      MembersInRange(Kinds(tokens), i, n);
      At(tokens, Members(Kinds(tokens), i, n))
    else []
  }

  function WithAll(m: map<Position, seq<Position>>, g: seq<Position>): map<Position, seq<Position>> {
    m + map p | p in g :: g
  }

  lemma {:induction false} StackInRange(s: seq<Kind>, n: nat)
    requires n <= |s|
    ensures forall d :: 0 <= d < |Stack(s, n)| ==> Stack(s, n)[d] < n
  {
    if n > 0 {
      StackInRange(s, n - 1);
    }
  }

  function Top(s: seq<Kind>, n: nat): (i: nat)
    requires n <= |s| && Stack(s, n) != []
    ensures i < n
  {
    StackInRange(s, n);
    Stack(s, n)[|Stack(s, n)| - 1]
  }

  /** The groups closed by the first `n` tokens, each entered under every position in it. */
  function GroupMap(tokens: seq<FormulaToken>, n: nat): map<Position, seq<Position>>
    requires n <= |tokens|
  {
    if n == 0 then map[]
    else
      var s, m := Kinds(tokens), GroupMap(tokens, n - 1);
      if s[n - 1].Close? && Stack(s, n - 1) != []
      then WithAll(m, GroupAt(tokens, Top(s, n - 1), n - 1))
      else m
  }

  /** The map holds the groups of the pairs closed before `n`, and nothing else. */
  ghost predicate HoldsGroups(m: map<Position, seq<Position>>, tokens: seq<FormulaToken>, n: nat) {
    && (forall i: nat, j: nat, p :: j < n && IsMatch(Kinds(tokens), i, j) && p in GroupAt(tokens, i, j) ==>
          p in m && m[p] == GroupAt(tokens, i, j))
    && (forall p :: p in m ==>
          exists i: nat, j: nat :: j < n && IsMatch(Kinds(tokens), i, j) && p in GroupAt(tokens, i, j))
  }

  lemma PositionsTellTokens(tokens: seq<FormulaToken>, k: nat, l: nat)
    requires InOrder(tokens) && k < |tokens| && l < |tokens| && tokens[k].place == tokens[l].place
    ensures k == l
  {
  }

  /** A position is in one group at most. */
  lemma PositionInOneGroup(tokens: seq<FormulaToken>, i: nat, j: nat, i': nat, j': nat, p: Position)
    requires InOrder(tokens) && IsMatch(Kinds(tokens), i, j) && IsMatch(Kinds(tokens), i', j')
    requires p in GroupAt(tokens, i, j) && p in GroupAt(tokens, i', j')
    ensures i == i' && j == j'
  {
    hide IsMatch, Group, InOrder;
    var s := Kinds(tokens);
    MatchInRange(s, i, j);
    MatchInRange(s, i', j');
    MembersInRange(s, i, j);
    MembersInRange(s, i', j');
    var k :| 0 <= k < |Group(s, i, j)| && GroupAt(tokens, i, j)[k] == p;
    var l :| 0 <= l < |Group(s, i', j')| && GroupAt(tokens, i', j')[l] == p;
    GroupInRange(s, i, j, k);
    GroupInRange(s, i', j', l);
    PositionsTellTokens(tokens, Group(s, i, j)[k], Group(s, i', j')[l]);
    GroupsAreDisjoint(s, i, j, i', j', Group(s, i, j)[k]);
  }

  lemma MatchInRange(s: seq<Kind>, i: nat, j: nat)
    requires IsMatch(s, i, j)
    ensures i < j < |s|
  {
  }

  lemma GroupInRange(s: seq<Kind>, i: nat, j: nat, k: nat)
    requires i < j < |s| && k < |Group(s, i, j)|
    ensures Group(s, i, j)[k] < |s|
  {
    MembersInRange(s, i, j);
  }

  lemma {:induction false} GroupMapHoldsGroups(tokens: seq<FormulaToken>, n: nat)
    requires InOrder(tokens) && n <= |tokens|
    ensures HoldsGroups(GroupMap(tokens, n), tokens, n)
  {
    hide InOrder, IsMatch, GroupAt, Group, Stack;
    if n > 0 {
      GroupMapHoldsGroups(tokens, n - 1);
      GroupMapStep(tokens, n - 1);
    }
  }

  lemma GroupMapStep(tokens: seq<FormulaToken>, n: nat)
    requires InOrder(tokens) && n < |tokens| && HoldsGroups(GroupMap(tokens, n), tokens, n)
    ensures HoldsGroups(GroupMap(tokens, n + 1), tokens, n + 1)
  {
    hide InOrder, IsMatch, GroupAt, Group, Stack;
    var s, before, m := Kinds(tokens), GroupMap(tokens, n), GroupMap(tokens, n + 1);
    forall i: nat, j: nat, p | j < n + 1 && IsMatch(s, i, j) && p in GroupAt(tokens, i, j)
      ensures p in m && m[p] == GroupAt(tokens, i, j)
    {
      CloserOfMatch(s, i, j);
      if j == n {
        ClosedByTop(s, i, n);
      } else if s[n].Close? && Stack(s, n) != [] && p in GroupAt(tokens, Top(s, n), n) {
        TopIsMatch(s, n);
        PositionInOneGroup(tokens, i, j, Top(s, n), n, p);
      }
    }
    forall p | p in m
      ensures exists i: nat, j: nat :: j < n + 1 && IsMatch(s, i, j) && p in GroupAt(tokens, i, j)
    {
      if s[n].Close? && Stack(s, n) != [] && p in GroupAt(tokens, Top(s, n), n) {
        TopIsMatch(s, n);
      } else {
        assert p in before;
        var i: nat, j: nat :| j < n && IsMatch(s, i, j) && p in GroupAt(tokens, i, j);
      }
    }
  }

  lemma CloserOfMatch(s: seq<Kind>, i: nat, j: nat)
    requires IsMatch(s, i, j)
    ensures i < j < |s| && s[j].Close?
  {
  }

  lemma ClosedByTop(s: seq<Kind>, i: nat, j: nat)
    requires IsMatch(s, i, j)
    ensures j < |s| && Stack(s, j) != [] && Top(s, j) == i
  {
    TopIsMatch(s, j);
    if Stack(s, j) != [] {
      MatchIsUnique(s, Top(s, j), j, i, j);
    }
  }

  /** The groups partition the positions they hold: a position is in its own group and all members share it; the
      first member is an opener, the last its closer, and between are exactly the opener's own commas. */
  lemma GroupsPartition(tokens: seq<FormulaToken>, p: Position)
    requires InOrder(tokens) && p in Groups(tokens)
    ensures var m := Groups(tokens);
      && p in m[p]
      && (forall q :: q in m[p] ==> q in m && m[q] == m[p])
      && exists i: nat, j: nat :: IsMatch(Kinds(tokens), i, j) && m[p] == GroupAt(tokens, i, j)
           && i < j < |tokens| && |m[p]| >= 2 && m[p][0] == tokens[i].place && m[p][|m[p]| - 1] == tokens[j].place
  {
    hide IsMatch, InOrder, GroupMap, GroupAt;
    GroupMapHoldsGroups(tokens, |tokens|);
    var i: nat, j: nat :| j < |tokens| && IsMatch(Kinds(tokens), i, j) && p in GroupAt(tokens, i, j);
    GroupEnds(tokens, i, j);
  }

  lemma GroupEnds(tokens: seq<FormulaToken>, i: nat, j: nat)
    requires IsMatch(Kinds(tokens), i, j)
    ensures var g := GroupAt(tokens, i, j);
      i < j < |tokens| && |g| >= 2 && g[0] == tokens[i].place && g[|g| - 1] == tokens[j].place
  {
    hide IsMatch, Group;
    var s := Kinds(tokens);
    MatchInRange(s, i, j);
    MembersInRange(s, i, j);
    GroupExact(s, i, j);
  }

  /** The spans of two groups are nested or apart. */
  lemma SpansNestOrAreApart(tokens: seq<FormulaToken>, i: nat, j: nat, i': nat, j': nat)
    requires InOrder(tokens) && IsMatch(Kinds(tokens), i, j) && IsMatch(Kinds(tokens), i', j') && i < i'
    ensures Before(tokens[i].place, tokens[i'].place)
    ensures Before(tokens[j].place, tokens[i'].place) || Before(tokens[j'].place, tokens[j].place)
  {
    PairsNestOrAreApart(Kinds(tokens), i, j, i', j');
  }

  /** The brackets marked as errors: closers without an opener and openers without a closer. */
  ghost function StrayBrackets(tokens: seq<FormulaToken>): set<Position> {
    set k: nat | k < |tokens| && (IsStrayCloser(Kinds(tokens), k) || IsStrayOpener(Kinds(tokens), k)) :: tokens[k].place
  }

  ghost function StrayClosers(tokens: seq<FormulaToken>, n: nat): set<Position>
    requires n <= |tokens|
  {
    set k: nat | k < n && IsStrayCloser(Kinds(tokens), k) :: tokens[k].place
  }

  ghost function Fronts(open: seq<seq<Position>>): set<Position> {
    set g | g in open && g != [] :: g[0]
  }

  /** The stack of groups as the scan keeps it, for the openers that are pending after `n` tokens. */
  ghost predicate ScanState(open: seq<seq<Position>>, tokens: seq<FormulaToken>, n: nat)
    requires n <= |tokens|
  {
    var t := Stack(Kinds(tokens), n);
    StackInRange(Kinds(tokens), n);
    |open| == |t| && forall d: nat :: d < |t| ==> open[d] == MembersAt(tokens, t[d], n)
  }

  lemma AtSum(tokens: seq<FormulaToken>, a: seq<nat>, k: nat)
    requires k < |tokens| && forall l :: 0 <= l < |a| ==> a[l] < |tokens|
    ensures At(tokens, a + [k]) == At(tokens, a) + [tokens[k].place]
  {
  }

  /** A token is added to the members of an opener if it is a comma at its depth, which is the top of the stack. */
  lemma MembersAtStep(tokens: seq<FormulaToken>, d: nat, n: nat)
    requires n < |tokens| && d < |Stack(Kinds(tokens), n)|
    ensures var s, t := Kinds(tokens), Stack(Kinds(tokens), n);
      && t[d] < n
      && MembersAt(tokens, t[d], n + 1)
         == MembersAt(tokens, t[d], n) + if s[n].Comma? && d == |t| - 1 then [tokens[n].place] else []
  {
    hide At, Stack, Excess;
    var s, t := Kinds(tokens), Stack(Kinds(tokens), n);
    StackHoldsPending(s, n);
    StackInRange(s, n);
    DepthOfEntry(s, n, t, d);
    MembersInRange(s, t[d], n);
    AtSum(tokens, Members(s, t[d], n), n);
  }

  lemma DepthOfEntry(s: seq<Kind>, n: nat, t: seq<nat>, d: nat)
    requires EntryOk(s, n, t, d)
    ensures t[d] < n <= |s| && Excess(s, t[d], n) == |t| - d
  {
  }

  lemma GroupAtTop(tokens: seq<FormulaToken>, n: nat)
    requires n < |tokens| && Stack(Kinds(tokens), n) != []
    ensures var i := Top(Kinds(tokens), n);
      GroupAt(tokens, i, n) == MembersAt(tokens, i, n) + [tokens[n].place]
  {
    hide At, Stack;
    var s := Kinds(tokens);
    MembersInRange(s, Top(s, n), n);
    AtSum(tokens, Members(s, Top(s, n), n), n);
  }

  lemma OpenStep(open: seq<seq<Position>>, tokens: seq<FormulaToken>, n: nat)
    requires n < |tokens| && ScanState(open, tokens, n) && tokens[n].kind.Open?
    ensures ScanState(open + [[tokens[n].place]], tokens, n + 1)
  {
    var t := Stack(Kinds(tokens), n + 1);
    forall d: nat | d < |t| - 1
      ensures open[d] == MembersAt(tokens, t[d], n + 1)
    {
      MembersAtStep(tokens, d, n);
    }
    assert MembersAt(tokens, n, n + 1) == [tokens[n].place];
  }

  lemma CommaStep(open: seq<seq<Position>>, tokens: seq<FormulaToken>, n: nat)
    requires n < |tokens| && ScanState(open, tokens, n) && tokens[n].kind.Comma? && open != []
    ensures ScanState(open[|open| - 1 := open[|open| - 1] + [tokens[n].place]], tokens, n + 1)
  {
    hide MembersAt;
    forall d: nat | d < |open|
      ensures MembersAt(tokens, Stack(Kinds(tokens), n)[d], n + 1)
              == open[d] + if d == |open| - 1 then [tokens[n].place] else []
    {
      MembersAtStep(tokens, d, n);
    }
  }

  /** A closer pops the stack; any other token leaves it. */
  lemma PlainStep(open: seq<seq<Position>>, tokens: seq<FormulaToken>, n: nat)
    requires n < |tokens| && ScanState(open, tokens, n)
    requires tokens[n].kind.Other? || tokens[n].kind.Close? || open == []
    requires !tokens[n].kind.Open?
    ensures ScanState(if tokens[n].kind.Close? && open != [] then open[..|open| - 1] else open, tokens, n + 1)
  {
    hide MembersAt;
    forall d: nat | d < |Stack(Kinds(tokens), n)|
      ensures MembersAt(tokens, Stack(Kinds(tokens), n)[d], n + 1) == open[d]
    {
      MembersAtStep(tokens, d, n);
    }
  }

  lemma ScanStart(tokens: seq<FormulaToken>)
    ensures ScanState([], tokens, 0)
  {
  }

  /** What one token adds to the groups, in terms of the stack of the scan. */
  lemma GroupMapNext(open: seq<seq<Position>>, tokens: seq<FormulaToken>, n: nat)
    requires n < |tokens| && ScanState(open, tokens, n)
    ensures tokens[n].kind.Close? && open != [] ==>
              GroupMap(tokens, n + 1) == WithAll(GroupMap(tokens, n), open[|open| - 1] + [tokens[n].place])
    ensures !(tokens[n].kind.Close? && open != []) ==> GroupMap(tokens, n + 1) == GroupMap(tokens, n)
  {
    hide Stack, GroupAt, MembersAt;
    if open != [] {
      GroupAtTop(tokens, n);
    }
  }

  lemma StrayClosersNext(open: seq<seq<Position>>, tokens: seq<FormulaToken>, n: nat)
    requires n < |tokens| && ScanState(open, tokens, n)
    ensures StrayClosers(tokens, n + 1)
            == StrayClosers(tokens, n) + if tokens[n].kind.Close? && open == [] then {tokens[n].place} else {}
  {
    hide Stack, IsMatch;
    var s := Kinds(tokens);
    if s[n].Close? {
      TopIsMatch(s, n);
    }
  }

  /** The openers left on the stack are the stray ones. */
  lemma StrayOpenerIsLeft(tokens: seq<FormulaToken>, k: nat)
    ensures IsStrayOpener(Kinds(tokens), k) <==> k in Stack(Kinds(tokens), |tokens|)
  {
    hide Stack, IsStrayOpener;
    var s := Kinds(tokens);
    StackHoldsPending(s, |s|);
    StrayOpenerIsPending(s, k);
    if k in Stack(s, |s|) {
      var d: nat :| d < |Stack(s, |s|)| && Stack(s, |s|)[d] == k;
      assert EntryOk(s, |s|, Stack(s, |s|), d);
    }
  }

  lemma LeftOpen(open: seq<seq<Position>>, tokens: seq<FormulaToken>, d: nat)
    requires ScanState(open, tokens, |tokens|) && d < |open|
    ensures var i := Stack(Kinds(tokens), |tokens|)[d];
      i < |tokens| && open[d] != [] && open[d][0] == tokens[i].place
  {
    hide Stack, At, Excess;
    var s := Kinds(tokens);
    StackHoldsPending(s, |s|);
    PendingOfEntry(s, |s|, Stack(s, |s|), d);
    MembersExact(s, Stack(s, |s|)[d], |s|);
    FirstAt(tokens, Members(s, Stack(s, |s|)[d], |s|));
  }

  lemma PendingOfEntry(s: seq<Kind>, n: nat, t: seq<nat>, d: nat)
    requires EntryOk(s, n, t, d)
    ensures Pending(s, t[d], n)
  {
  }

  lemma FirstAt(tokens: seq<FormulaToken>, a: seq<nat>)
    requires a != [] && forall l :: 0 <= l < |a| ==> a[l] < |tokens|
    ensures At(tokens, a) != [] && At(tokens, a)[0] == tokens[a[0]].place
  {
  }

  lemma StrayAreMarked(open: seq<seq<Position>>, tokens: seq<FormulaToken>)
    requires ScanState(open, tokens, |tokens|)
    ensures StrayClosers(tokens, |tokens|) + Fronts(open) == StrayBrackets(tokens)
  {
    hide ScanState, Stack, IsStrayCloser, IsStrayOpener;
    var s, t := Kinds(tokens), Stack(Kinds(tokens), |tokens|);
    SameDepth(open, tokens);
    forall p | p in Fronts(open)
      ensures p in StrayBrackets(tokens)
    {
      var g :| g in open && g != [] && g[0] == p;
      var d: nat :| d < |open| && open[d] == g;
      LeftOpen(open, tokens, d);
      StrayOpenerIsLeft(tokens, t[d]);
    }
    forall k: nat | k < |tokens| && IsStrayOpener(s, k)
      ensures tokens[k].place in Fronts(open)
    {
      StrayOpenerIsLeft(tokens, k);
      var d: nat :| d < |t| && t[d] == k;
      LeftOpen(open, tokens, d);
      assert open[d] in open;
    }
  }

  lemma SameDepth(open: seq<seq<Position>>, tokens: seq<FormulaToken>)
    requires ScanState(open, tokens, |tokens|)
    ensures |open| == |Stack(Kinds(tokens), |tokens|)|
  {
  }

  /** The groups and the stray brackets of all the formulas in a text. */
  function AllGroups(formulas: seq<seq<FormulaToken>>): map<Position, seq<Position>> {
    if formulas == [] then map[]
    else
      var last := formulas[|formulas| - 1];
      AllGroups(formulas[..|formulas| - 1]) + Groups(last)
  }

  ghost function AllStrays(formulas: seq<seq<FormulaToken>>): set<Position> {
    set f, p | f in formulas && p in StrayBrackets(f) :: p
  }

  /** The tokens of all the formulas, each formula's in order and after those of the formulas before it. */
  ghost predicate AllInOrder(formulas: seq<seq<FormulaToken>>) {
    && (forall f :: f in formulas ==> InOrder(f))
    && forall i, j :: 0 <= i < j < |formulas| ==> Precedes(formulas[i], formulas[j])
  }

  ghost predicate Precedes(f: seq<FormulaToken>, g: seq<FormulaToken>) {
    forall t, u :: t in f && u in g ==> Before(t.place, u.place)
  }

  function Groups(formula: seq<FormulaToken>): map<Position, seq<Position>> {
    GroupMap(formula, |formula|)
  }

  /** Every key of a formula's map is the position of one of its tokens. */
  lemma KeysAreTokens(tokens: seq<FormulaToken>, p: Position)
    requires InOrder(tokens) && p in Groups(tokens)
    ensures exists t :: t in tokens && t.place == p
  {
    hide IsMatch, GroupAt, InOrder, GroupMap;
    GroupMapHoldsGroups(tokens, |tokens|);
    var i: nat, j: nat :| j < |tokens| && IsMatch(Kinds(tokens), i, j) && p in GroupAt(tokens, i, j);
    GroupHasTokens(tokens, i, j, p);
  }

  lemma GroupHasTokens(tokens: seq<FormulaToken>, i: nat, j: nat, p: Position)
    requires p in GroupAt(tokens, i, j)
    ensures exists t :: t in tokens && t.place == p
  {
    hide Group, Kinds;
    var s := Kinds(tokens);
    MembersInRange(s, i, j);
    var k: nat :| k < |Group(s, i, j)| && GroupAt(tokens, i, j)[k] == p;
    GroupInRange(s, i, j, k);
    assert tokens[Group(s, i, j)[k]] in tokens;
  }

  /** A map with the entries of each formula on the positions of that formula, and with no other entry. */
  ghost predicate HoldsAll(m: map<Position, seq<Position>>, formulas: seq<seq<FormulaToken>>) {
    && (forall f, p :: f in formulas && p in Groups(f) ==> p in m && m[p] == Groups(f)[p])
    && (forall p :: p in m ==> HasKey(formulas, p))
  }

  ghost predicate HasKey(formulas: seq<seq<FormulaToken>>, p: Position) {
    exists f :: f in formulas && p in Groups(f)
  }

  lemma HasKeyStep(before: seq<seq<FormulaToken>>, last: seq<FormulaToken>, p: Position)
    requires HasKey(before, p) || p in Groups(last)
    ensures HasKey(before + [last], p)
  {
    hide Groups;
    if p in Groups(last) {
      assert last in before + [last];
    } else {
      var f :| f in before && p in Groups(f);
      assert f in before + [last];
    }
  }

  lemma HoldsAllStep(m: map<Position, seq<Position>>, before: seq<seq<FormulaToken>>, last: seq<FormulaToken>)
    requires AllInOrder(before + [last]) && HoldsAll(m, before)
    ensures HoldsAll(m + Groups(last), before + [last])
  {
    hide Groups, AllInOrder, HasKey;
    var all, m' := before + [last], m + Groups(last);
    forall f, p | f in all && p in Groups(f)
      ensures p in m' && m'[p] == Groups(f)[p]
    {
      if f in before && p in Groups(last) {
        FormulasApart(before, last, f, p);
      }
    }
    forall p | p in m'
      ensures HasKey(all, p)
    {
      HasKeyStep(before, last, p);
    }
  }

  lemma FormulasApart(before: seq<seq<FormulaToken>>, last: seq<FormulaToken>, f: seq<FormulaToken>, p: Position)
    requires AllInOrder(before + [last]) && f in before && p in Groups(f)
    ensures p !in Groups(last)
  {
    hide InOrder, GroupMap, Precedes;
    var all := before + [last];
    var k :| 0 <= k < |before| && before[k] == f;
    assert all[k] == f && all[|before|] == last;
    assert f in all && last in all;
    KeysApart(f, last, p);
  }

  lemma KeysApart(f: seq<FormulaToken>, g: seq<FormulaToken>, p: Position)
    requires InOrder(f) && InOrder(g) && Precedes(f, g) && p in Groups(f)
    ensures p !in Groups(g)
  {
    hide InOrder, GroupMap;
    KeysAreTokens(f, p);
    if p in Groups(g) {
      KeysAreTokens(g, p);
    }
  }

  lemma NothingHeld()
    ensures HoldsAll(map[], [])
  {
  }

  /** No formula changes what another one entered: the whole map is that of each formula on its own positions. */
  lemma {:induction false} AllGroupsExact(formulas: seq<seq<FormulaToken>>)
    requires AllInOrder(formulas)
    ensures HoldsAll(AllGroups(formulas), formulas)
  {
    hide InOrder, Groups, Precedes, HoldsAll;
    if formulas == [] {
      NothingHeld();
    } else {
      var before, last := formulas[..|formulas| - 1], formulas[|formulas| - 1];
      assert before + [last] == formulas;
      assert AllInOrder(before);
      AllGroupsExact(before);
      HoldsAllStep(AllGroups(before), before, last);
    }
  }

  class BracketMatcher {
    var bracketMatch: map<Position, seq<Position>>
    var errors: set<Position>

    constructor ()
      ensures bracketMatch == map[] && errors == {}
    {
      bracketMatch, errors := map[], {};
    }

    /** Every member of a closed group is mapped to the group. */
    method EnterGroup(g: seq<Position>)
      modifies this`bracketMatch
      ensures bracketMatch == WithAll(old(bracketMatch), g)
    {
      for n := 0 to |g|
        invariant bracketMatch == old(bracketMatch) + map p | p in g[..n] :: g
      {
        assert g[..n + 1] == g[..n] + [g[n]];
        bracketMatch := bracketMatch[g[n] := g];
      }
      assert g[..|g|] == g;
    }

    /** The scan of one formula. */
    method ScanFormula(tokens: seq<FormulaToken>)
      modifies this
      ensures bracketMatch == old(bracketMatch) + GroupMap(tokens, |tokens|)
      ensures errors == old(errors) + StrayBrackets(tokens)
    {
      hide ScanState, GroupMap, StrayClosers, StrayBrackets;
      var open: seq<seq<Position>> := [];
      ScanStart(tokens);
      NothingYet(tokens);
      for n := 0 to |tokens|
        invariant ScanState(open, tokens, n)
        invariant bracketMatch == old(bracketMatch) + GroupMap(tokens, n)
        invariant errors == old(errors) + StrayClosers(tokens, n)
      {
        GroupMapNext(open, tokens, n);
        StrayClosersNext(open, tokens, n);
        match tokens[n].kind {
          case Open =>
            OpenStep(open, tokens, n);
            open := open + [[tokens[n].place]];
          case Close =>
            PlainStep(open, tokens, n);
            if open == [] {
              errors := errors + {tokens[n].place};
            } else {
              var group := open[|open| - 1] + [tokens[n].place];
              EnterGroup(group);
              open := open[..|open| - 1];
            }
          case Comma =>
            if open != [] {
              CommaStep(open, tokens, n);
              open := open[|open| - 1 := open[|open| - 1] + [tokens[n].place]];
            } else {
              PlainStep(open, tokens, n);
            }
          case Other =>
            PlainStep(open, tokens, n);
        }
      }
      MarkLeftOpen(open, tokens);
    }

    /** The brackets still on the stack are marked as errors. */
    method MarkLeftOpen(open: seq<seq<Position>>, tokens: seq<FormulaToken>)
      requires ScanState(open, tokens, |tokens|)
      requires StrayClosers(tokens, |tokens|) <= errors
      modifies this`errors
      ensures StrayClosers(tokens, |tokens|) <= StrayBrackets(tokens)
      ensures errors == old(errors) + StrayBrackets(tokens)
    {
      hide ScanState, StrayClosers, StrayBrackets;
      for n := 0 to |open|
        invariant errors == old(errors) + Fronts(open[..n])
      {
        LeftOpen(open, tokens, n);
        assert open[..n + 1] == open[..n] + [open[n]];
        errors := errors + {open[n][0]};
      }
      assert open[..|open|] == open;
      StrayAreMarked(open, tokens);
      assert errors == old(errors) + StrayClosers(tokens, |tokens|) + Fronts(open);
    }

    /** After a change of the text, all its formulas are scanned afresh. */
    method OnChange(formulas: seq<seq<FormulaToken>>)
      modifies this
      ensures bracketMatch == AllGroups(formulas)
      ensures errors == AllStrays(formulas)
    {
      hide StrayBrackets, GroupMap;
      bracketMatch, errors := map[], {};
      for n := 0 to |formulas|
        invariant bracketMatch == AllGroups(formulas[..n])
        invariant errors == AllStrays(formulas[..n])
      {
        assert formulas[..n + 1] == formulas[..n] + [formulas[n]];
        assert formulas[..n + 1][..n] == formulas[..n];
        ScanFormula(formulas[n]);
      }
      assert formulas[..|formulas|] == formulas;
    }
  }

  lemma NothingYet(tokens: seq<FormulaToken>)
    ensures GroupMap(tokens, 0) == map[] && StrayClosers(tokens, 0) == {}
  {
  }

  // ---------------------------------------------------------------------------------------------
  // The innermost object
  // ---------------------------------------------------------------------------------------------

  /** The range of characters that a token takes. */
  datatype Range = Range(begin: nat, end: nat)

  /** A token of the text, an `Open` or `Close` being a curly brace. */
  type JsonToken = Token<Range>

  datatype ObjectInfo = ObjectInfo(begin: nat, end: nat, tokens: seq<JsonToken>)

  ghost predicate BeginInOrder(tokens: seq<JsonToken>) {
    forall i, j :: 0 <= i < j < |tokens| ==> tokens[i].place.begin < tokens[j].place.begin
  }

  /** A matched pair of braces with the position between them. */
  ghost predicate Encloses(tokens: seq<JsonToken>, at: nat, i: nat, j: nat) {
    IsMatch(Kinds(tokens), i, j) && tokens[i].place.begin <= at <= tokens[j].place.begin
  }

  /** An enclosing pair inside all the other enclosing pairs. */
  ghost predicate Innermost(tokens: seq<JsonToken>, at: nat, i: nat, j: nat) {
    && Encloses(tokens, at, i, j)
    && forall i': nat, j': nat :: Encloses(tokens, at, i', j') ==> i' <= i && j <= j'
  }

  /** Whether a scan that stops at the first unmatched closer comes to `j`. */
  ghost predicate ComesTo(tokens: seq<JsonToken>, j: nat) {
    forall k: nat :: k < j ==> !IsStrayCloser(Kinds(tokens), k)
  }

  lemma FirstIsInnermost(tokens: seq<JsonToken>, at: nat, i: nat, j: nat)
    requires BeginInOrder(tokens) && Encloses(tokens, at, i, j)
    requires forall i': nat, j': nat :: j' < j ==> !Encloses(tokens, at, i', j')
    ensures Innermost(tokens, at, i, j)
  {
    hide IsMatch, Encloses;
    forall i': nat, j': nat | Encloses(tokens, at, i', j')
      ensures i' <= i
    {
      EnclosingPairsNest(tokens, at, i, j, i', j');
    }
  }

  lemma EnclosingPairsNest(tokens: seq<JsonToken>, at: nat, i: nat, j: nat, i': nat, j': nat)
    requires BeginInOrder(tokens) && Encloses(tokens, at, i, j) && Encloses(tokens, at, i', j') && j <= j'
    ensures i' <= i
  {
    hide IsMatch;
    var s := Kinds(tokens);
    MatchInRange(s, i, j);
    MatchInRange(s, i', j');
    if i < i' {
      PairsNestOrAreApart(s, i, j, i', j');
    }
  }

  lemma EnclosingIsTop(tokens: seq<JsonToken>, at: nat, i: nat, j: nat)
    requires Encloses(tokens, at, i, j)
    ensures i < j < |tokens| && tokens[j].kind.Close? && Stack(Kinds(tokens), j) != []
    ensures Top(Kinds(tokens), j) == i
  {
    hide IsMatch, Stack;
    CloserOfMatch(Kinds(tokens), i, j);
    ClosedByTop(Kinds(tokens), i, j);
  }

  /** What the closer at `n` decides: without an opener it is stray; with one, it encloses the position or no pair
      closed there does. */
  lemma CloserDecides(tokens: seq<JsonToken>, at: nat, n: nat)
    requires n < |tokens|
    ensures var s := Kinds(tokens);
      && (IsStrayCloser(s, n) <==> s[n].Close? && Stack(s, n) == [])
      && (forall i: nat :: Encloses(tokens, at, i, n) <==>
            s[n].Close? && Stack(s, n) != [] && i == Top(s, n) && tokens[i].place.begin <= at <= tokens[n].place.begin)
  {
    hide IsMatch, Stack;
    var s := Kinds(tokens);
    if s[n].Close? {
      TopIsMatch(s, n);
    }
    forall i: nat | Encloses(tokens, at, i, n)
      ensures s[n].Close? && Stack(s, n) != [] && i == Top(s, n)
    {
      EnclosingIsTop(tokens, at, i, n);
    }
  }

  /** The innermost object around a position.  Nothing is found exactly when every pair that encloses the position
      has an unmatched closer before its own closer, and so, without unmatched closers, when no pair encloses it. */
  method GetObjectAt(tokens: seq<JsonToken>, at: nat) returns (r: Option<ObjectInfo>)
    requires BeginInOrder(tokens)
    ensures r.None? <==> forall i: nat, j: nat :: Encloses(tokens, at, i, j) ==> !ComesTo(tokens, j)
    ensures (forall k: nat :: !IsStrayCloser(Kinds(tokens), k)) ==>
              (r.None? <==> forall i: nat, j: nat :: !Encloses(tokens, at, i, j))
    ensures r.Some? ==> exists i: nat, j: nat ::
              Innermost(tokens, at, i, j)
              && r.value == ObjectInfo(tokens[i].place.begin, tokens[j].place.end, tokens[i..j + 1])
  {
    hide Encloses, IsStrayCloser;
    ghost var s := Kinds(tokens);
    var begin: seq<nat> := [];
    for n := 0 to |tokens|
      invariant begin == Stack(s, n)
      invariant ComesTo(tokens, n)
      invariant forall i: nat, j: nat :: j < n ==> !Encloses(tokens, at, i, j)
    {
      CloserDecides(tokens, at, n);
      if tokens[n].kind.Open? {
        begin := begin + [n];
      }
      if tokens[n].kind.Close? {
        if begin == [] {
          NothingBehindStray(tokens, at, n);
          return None;
        }
        StackInRange(s, n);
        var top := begin[|begin| - 1];
        if tokens[top].place.begin <= at && tokens[n].place.begin >= at {
          FirstIsInnermost(tokens, at, top, n);
          return Some(ObjectInfo(tokens[top].place.begin, tokens[n].place.end, tokens[top..n + 1]));
        }
        begin := begin[..|begin| - 1];
      }
    }
    NothingBehindEnd(tokens, at);
    return None;
  }

  /** The text `} { }` with the position at its opener: a pair encloses it, and the scan stops in front of it. */
  lemma EnclosedButNotFound() returns (tokens: seq<JsonToken>, at: nat)
    ensures BeginInOrder(tokens) && Encloses(tokens, at, 1, 2)
    ensures forall i: nat, j: nat :: Encloses(tokens, at, i, j) ==> !ComesTo(tokens, j)
  {
    at := 2;
    tokens := [Token(Close, Range(0, 1)), Token(Open, Range(2, 3)), Token(Close, Range(4, 5))];
    var s := Kinds(tokens);
    PendingStart(s, 1);
    assert IsMatch(s, 1, 2);
    TopIsMatch(s, 0);
    assert IsStrayCloser(s, 0);
    NothingBehindStray(tokens, at, 0);
  }

  lemma NothingBehindStray(tokens: seq<JsonToken>, at: nat, n: nat)
    requires n < |tokens| && IsStrayCloser(Kinds(tokens), n)
    requires forall i: nat, j: nat :: j < n ==> !Encloses(tokens, at, i, j)
    ensures forall i: nat, j: nat :: Encloses(tokens, at, i, j) ==> !ComesTo(tokens, j)
  {
    forall i: nat, j: nat | Encloses(tokens, at, i, j)
      ensures !ComesTo(tokens, j)
    {
      assert j != n;
    }
  }

  lemma NothingBehindEnd(tokens: seq<JsonToken>, at: nat)
    requires forall i: nat, j: nat :: j < |tokens| ==> !Encloses(tokens, at, i, j)
    ensures forall i: nat, j: nat :: !Encloses(tokens, at, i, j)
  {
  }
}
